/** Exactly which accepted conditions are planned right in every row: for two bounds
    on one side, those whose left bound the right one implies. */
module PlannerLimits {
  import opened Bytes
  import opened KeyCodec
  import opened Rows
  import opened Expressions
  import opened Planner
  import opened Retyping

  function BlankRow(s: Schema): (r: Row)
    ensures |r| == |s.cols| && forall i :: 0 <= i < |r| ==> r[i].typ == s.cols[i].typ
  {
    seq(|s.cols|, i requires 0 <= i < |s.cols| => Cell(s.cols[i].typ, 0, []))
  }

  /** Some row whose primary key starts with the given cells. */
  lemma {:induction false} RowStartingWith(s: Schema, prefix: seq<Cell>) returns (row: Row)
    requires WellFormed(s) && IsKeyPrefix(s, prefix)
    ensures Typed(s, row) && KeyPrefix(s, row, |prefix|) == prefix
    decreases |prefix|
  {
    var n := |prefix|;
    if n == 0 {
      row := BlankRow(s);
    } else {
      var shorter := RowStartingWith(s, prefix[..n - 1]);
      row := shorter[s.pkey[n - 1] := prefix[n - 1]];
      forall i | 0 <= i < n ensures KeyPrefix(s, row, n)[i] == prefix[i] {
        if i < n - 1 { assert KeyPrefix(s, shorter, n - 1)[i] == prefix[..n - 1][i]; }
      }
    }
  }

  /** Tuple order is transitive, because byte order is. */
  lemma TupleOrderChain(a: seq<Cell>, b: seq<Cell>, c: seq<Cell>)
    requires SameTypes(a, b) && SameTypes(b, c) && SameTypes(a, c)
    ensures SameTypes(b, a) && SameTypes(c, b) && SameTypes(c, a)
    ensures TupleLess(a, b) && !TupleLess(c, b) ==> TupleLess(a, c)
    ensures !TupleLess(b, a) && TupleLess(b, c) ==> TupleLess(a, c)
  {
    var x, y, z := EncodeCols(a) + [], EncodeCols(b) + [], EncodeCols(c) + [];
    assert SameTypes(b, a) && SameTypes(c, b) && SameTypes(c, a);
    ColsOrder(a, b, [], []);
    ColsOrder(b, a, [], []);
    ColsOrder(b, c, [], []);
    ColsOrder(c, b, [], []);
    ColsOrder(a, c, [], []);
    Trichotomy(x, y);
    Trichotomy(y, x);
    Trichotomy(y, z);
    Trichotomy(z, y);
    if Less(x, y) && AtMost(y, z) { AtMostTransitive(x, y, z); }
    if AtMost(x, y) && Less(y, z) { AtMostTransitive(x, y, z); }
  }

  // ---- the least tuple above ----

  /** Strings have a successor each, numbers all but the last. */
  function Bump(c: Cell): (r: Option<Cell>)
    ensures r.Some? ==> r.value.typ == c.typ
  {
    if c.typ.TypeStr? then Some(c.(str := c.str + [0]))
    else if c.num < I63 - 1 then Some(c.(num := c.num + 1))
    else None
  }

  lemma {:induction false} NothingBetween(a: Bytes, b: Bytes)
    ensures Less(a, b) <==> !Less(b, a + [0])
    decreases |a|
  {
    if a != [] && b != [] {
      assert (a + [0])[1..] == a[1..] + [0];
      NothingBetween(a[1..], b[1..]);
    }
  }

  lemma BumpIsNext(c: Cell, d: Cell)
    requires c.typ == d.typ
    ensures CellLess(c, d) <==> Bump(c).Some? && !CellLess(d, Bump(c).value)
  {
    NothingBetween(c.str, d.str);
  }

  /** The last cell that has a successor is replaced by it, what follows is dropped;
      above a tuple without such a cell there is nothing. */
  function Next(q: seq<Cell>): (r: Option<seq<Cell>>)
    ensures r.Some? ==> |r.value| <= |q| && forall i :: 0 <= i < |r.value| ==> r.value[i].typ == q[i].typ
  {
    if q == [] then None
    else match Next(q[1..])
      case Some(t) => Some([q[0]] + t)
      case None => match Bump(q[0])
        case None => None
        case Some(c) => Some([c])
  }

  lemma {:induction false} NextIsLeastAbove(q: seq<Cell>, t: seq<Cell>)
    requires SameTypes(q, t)
    ensures TupleLess(q, t) <==> Next(q).Some? && !TupleLess(t[..|Next(q).value|], Next(q).value)
  {
    hide CellLess, CellEq, Bump;
    if q != [] {
      NextIsLeastAbove(q[1..], t[1..]);
      BumpIsNext(q[0], t[0]);
      Cells(q[0], t[0]);
      match Next(q[1..])
      case Some(u) =>
        assert t[..1 + |u|][1..] == t[1..][..|u|] && ([q[0]] + u)[1..] == u;
      case None =>
        if Bump(q[0]).Some? { assert t[..1][1..] == [] && t[..1][0] == t[0]; }
    }
  }

  lemma Cells(a: Cell, b: Cell)
    requires a.typ == b.typ
    ensures CellLess(a, b) ==> !CellEq(a, b) && !CellLess(b, a)
    ensures CellEq(a, b) <==> !CellLess(a, b) && !CellLess(b, a)
    ensures CellEq(a, b) <==> CellEq(b, a)
  {
    Trichotomy(a.str, b.str);
    Trichotomy(b.str, a.str);
  }

  // ---- bounds in one form ----

  /** The key prefix from which on a lower bound holds, and an upper bound fails. */
  function Floor(b: Bound): Option<seq<Cell>> {
    if b.op == GE || b.op == LT then Some(b.cells) else Next(b.cells)
  }

  ghost predicate IsFloor(s: Schema, f: Option<seq<Cell>>)
    requires WellFormed(s)
  {
    f.Some? ==> IsKeyPrefix(s, f.value)
  }

  ghost predicate FromOn(s: Schema, row: Row, f: Option<seq<Cell>>)
    requires WellFormed(s) && Typed(s, row) && IsFloor(s, f)
  {
    f.Some? && (PrefixTypes(s, row, f.value); !TupleLess(KeyPrefix(s, row, |f.value|), f.value))
  }

  lemma FloorIsFloor(s: Schema, b: Bound)
    requires WellFormed(s) && IsKeyPrefix(s, b.cells)
    ensures IsFloor(s, Floor(b))
  {
  }

  lemma FloorMeans(s: Schema, row: Row, b: Bound)
    requires WellFormed(s) && Typed(s, row) && IsKeyPrefix(s, b.cells) && b.op in {GT, GE, LT, LE}
    ensures IsFloor(s, Floor(b))
    ensures PrefixOrdered(s, row, b.op, b.cells) <==> (FromOn(s, row, Floor(b)) <==> b.IsStart())
  {
    hide TupleLess, TupleEq, Next, CellLess, WellFormed;
    FloorIsFloor(s, b);
    var q := KeyPrefix(s, row, |b.cells|);
    PrefixTypes(s, row, b.cells);
    NextIsLeastAbove(b.cells, q);
    TupleTrichotomy(q, b.cells);
    if Next(b.cells).Some? { assert q[..|Next(b.cells).value|] == KeyPrefix(s, row, |Next(b.cells).value|); }
  }

  // ---- when one such set contains another ----

  function LeastCell(t: CellType): Cell {
    Cell(t, -I63, [])
  }

  /** The least primary key that starts with these cells. */
  function LeastKey(s: Schema, q: seq<Cell>): (r: seq<Cell>)
    requires WellFormed(s) && IsKeyPrefix(s, q)
    ensures |r| == |s.pkey| && IsKeyPrefix(s, r) && r[..|q|] == q
    ensures forall i :: |q| <= i < |r| ==> r[i] == LeastCell(s.cols[s.pkey[i]].typ)
  {
    var r := seq(|s.pkey|, i requires 0 <= i < |s.pkey| => if i < |q| then q[i] else LeastCell(s.cols[s.pkey[i]].typ));
    assert r[..|q|] == q;
    r
  }

  /** Every key from the inner floor on is from the outer floor on. */
  predicate Covers(s: Schema, outer: Option<seq<Cell>>, inner: Option<seq<Cell>>)
    requires WellFormed(s) && IsFloor(s, outer) && IsFloor(s, inner)
  {
    inner.Some? ==>
      outer.Some? && !TupleLess(LeastKey(s, inner.value)[..|outer.value|], outer.value)
  }

  lemma {:induction false} LessByPrefix(a: seq<Cell>, b: seq<Cell>, n: nat)
    requires SameTypes(a, b) && n <= |a|
    ensures TupleLess(a[..n], b[..n]) ==> TupleLess(a, b)
    decreases |a|
  {
    if n > 0 {
      assert a[..n][1..] == a[1..][..n - 1] && b[..n][1..] == b[1..][..n - 1];
      LessByPrefix(a[1..], b[1..], n - 1);
    }
  }

  /** Below a tuple that ends in least cells means below what comes before them. */
  lemma {:induction false} LeastAddsNothing(a: seq<Cell>, b: seq<Cell>, n: nat)
    requires SameTypes(a, b) && n <= |a| && forall i :: n <= i < |b| ==> b[i] == LeastCell(b[i].typ)
    ensures TupleLess(a, b) ==> TupleLess(a[..n], b[..n])
    decreases |a|
  {
    if a != [] {
      if n == 0 {
        assert b[0] == LeastCell(b[0].typ) && !CellLess(a[0], b[0]);
        LeastAddsNothing(a[1..], b[1..], 0);
      } else {
        assert a[..n][1..] == a[1..][..n - 1] && b[..n][1..] == b[1..][..n - 1];
        LeastAddsNothing(a[1..], b[1..], n - 1);
      }
    }
  }

  lemma CoversSuffices(s: Schema, row: Row, outer: Option<seq<Cell>>, inner: Option<seq<Cell>>)
    requires WellFormed(s) && Typed(s, row) && IsFloor(s, outer) && IsFloor(s, inner)
    requires Covers(s, outer, inner) && FromOn(s, row, inner)
    ensures FromOn(s, row, outer)
  {
    hide TupleLess;
    var t, u, n := KeyCells(s, row), LeastKey(s, inner.value), |outer.value|;
    LeastAddsNothing(t, u, |inner.value|);
    LessByPrefix(t, u, n);
    TupleOrderChain(t[..n], outer.value, u[..n]);
  }

  /** The least key from the inner floor on. */
  lemma CoversNeeded(s: Schema, outer: Option<seq<Cell>>, inner: Option<seq<Cell>>) returns (row: Row)
    requires WellFormed(s) && IsFloor(s, outer) && IsFloor(s, inner) && !Covers(s, outer, inner)
    ensures Typed(s, row) && FromOn(s, row, inner) && !FromOn(s, row, outer)
  {
    hide TupleLess;
    var u := LeastKey(s, inner.value);
    row := RowStartingWith(s, u);
    assert KeyCells(s, row) == u;
    assert KeyPrefix(s, row, |inner.value|) == inner.value;
    SelfEqual(inner.value);
    TupleTrichotomy(inner.value, inner.value);
  }

  lemma SelfEqual(a: seq<Cell>)
    ensures SameTypes(a, a) && TupleEq(a, a)
  {
  }

  // ---- two bounds on one side ----

  /** The right bound implies the left one: the forgotten bound was redundant. */
  predicate Redundant(s: Schema, left: Bound, right: Bound)
    requires WellFormed(s) && IsKeyPrefix(s, left.cells) && IsKeyPrefix(s, right.cells)
  {
    if left.IsStart() then Covers(s, Floor(left), Floor(right)) else Covers(s, Floor(right), Floor(left))
  }

  lemma RedundantExactlyWhen(s: Schema, left: Bound, right: Bound)
    requires WellFormed(s) && IsKeyPrefix(s, left.cells) && IsKeyPrefix(s, right.cells)
    requires left.op in {GT, GE, LT, LE} && right.op in {GT, GE, LT, LE} && left.IsStart() == right.IsStart()
    ensures Redundant(s, left, right) <==>
      forall row :: Typed(s, row) && PrefixOrdered(s, row, right.op, right.cells) ==>
        PrefixOrdered(s, row, left.op, left.cells)
  {
    hide PrefixOrdered, FromOn, Covers, Floor, WellFormed, Typed;
    FloorIsFloor(s, left);
    FloorIsFloor(s, right);
    var outer, inner := if left.IsStart() then Floor(left) else Floor(right),
                        if left.IsStart() then Floor(right) else Floor(left);
    if Redundant(s, left, right) {
      forall row | Typed(s, row) && PrefixOrdered(s, row, right.op, right.cells)
        ensures PrefixOrdered(s, row, left.op, left.cells)
      {
        FloorMeans(s, row, left);
        FloorMeans(s, row, right);
        if FromOn(s, row, inner) { CoversSuffices(s, row, outer, inner); }
      }
    } else {
      var row := CoversNeeded(s, outer, inner);
      FloorMeans(s, row, left);
      FloorMeans(s, row, right);
    }
  }

  /** The left constants do not lie beyond the right ones. */
  predicate NotBeyond(op: Op, left: seq<Cell>, right: seq<Cell>)
    requires SameTypes(left, right) && SameTypes(right, left)
  {
    if op == GT || op == GE then !TupleLess(right, left) else !TupleLess(left, right)
  }

  lemma NotBeyondSuffices(s: Schema, op: Op, left: seq<Cell>, right: seq<Cell>, row: Row)
    requires WellFormed(s) && Typed(s, row) && op in {GT, GE, LT, LE}
    requires |left| == |right| && IsKeyPrefix(s, left) && IsKeyPrefix(s, right)
    requires SameTypes(left, right) && SameTypes(right, left) && NotBeyond(op, left, right)
    ensures PrefixOrdered(s, row, op, right) ==> PrefixOrdered(s, row, op, left)
  {
    hide TupleLess, TupleEq;
    PrefixTypes(s, row, left);
    PrefixTypes(s, row, right);
    var q := KeyPrefix(s, row, |left|);
    match op
    case GT => TupleOrderChain(left, right, q);
    case GE => TupleOrderChain(q, left, right);
    case LT => TupleOrderChain(q, right, left);
    case _ => TupleOrderChain(right, left, q);
  }

  lemma BeyondFails(s: Schema, op: Op, left: seq<Cell>, right: seq<Cell>) returns (row: Row)
    requires WellFormed(s) && op in {GT, GE, LT, LE}
    requires |left| == |right| && IsKeyPrefix(s, left) && IsKeyPrefix(s, right)
    requires SameTypes(left, right) && SameTypes(right, left) && !NotBeyond(op, left, right)
    ensures Typed(s, row) && PrefixOrdered(s, row, op, right) && !PrefixOrdered(s, row, op, left)
  {
    hide TupleLess, TupleEq;
    TupleTrichotomy(left, left);
    TupleTrichotomy(right, right);
    SelfEqual(left);
    SelfEqual(right);
    row := RowStartingWith(s, if op == GT || op == LT then left else right);
    PrefixTypes(s, row, left);
    PrefixTypes(s, row, right);
  }

  /** For the same operator over the same columns: exactly when the left constants do
      not lie beyond the right ones. */
  lemma SameSideIsExactWhen(s: Schema, op: Op, left: seq<Cell>, right: seq<Cell>)
    requires WellFormed(s) && op in {GT, GE, LT, LE}
    requires |left| == |right| && IsKeyPrefix(s, left) && IsKeyPrefix(s, right)
    ensures SameTypes(left, right) && SameTypes(right, left)
    ensures Redundant(s, Bound(op, left), Bound(op, right)) <==> NotBeyond(op, left, right)
  {
    hide Redundant, PrefixOrdered, NotBeyond;
    RedundantExactlyWhen(s, Bound(op, left), Bound(op, right));
    if NotBeyond(op, left, right) {
      forall row | Typed(s, row) && PrefixOrdered(s, row, op, right) ensures PrefixOrdered(s, row, op, left) {
        NotBeyondSuffices(s, op, left, right, row);
      }
    } else {
      var row := BeyondFails(s, op, left, right);
    }
  }

  /** Of two bounds on the same side of a conjunction, the left one is redundant. */
  predicate LeftIsRedundant(s: Schema, e: Expr)
    requires WellFormed(s)
  {
    match e
    case Bin(AND, l, r) =>
      var a, b := CmpToBound(s, l), CmpToBound(s, r);
      a.Some? && b.Some? && a.value.IsStart() == b.value.IsStart() && Redundant(s, a.value, b.value)
    case _ => false
  }

  lemma RedundantMeansImplied(s: Schema, e: Expr)
    requires WellFormed(s) && WellTyped(s, e) && !OneBoundPerSide(s, e)
    ensures LeftIsRedundant(s, e) <==> forall row :: Typed(s, row) && Holds(s, row, e.right) ==> Holds(s, row, e.left)
  {
    hide Holds, PrefixOrdered, Redundant, CmpToBound, WellFormed;
    var a, b := CmpToBound(s, e.left).value, CmpToBound(s, e.right).value;
    RedundantExactlyWhen(s, a, b);
    forall row | Typed(s, row)
      ensures Holds(s, row, e.left) <==> PrefixOrdered(s, row, a.op, a.cells)
      ensures Holds(s, row, e.right) <==> PrefixOrdered(s, row, b.op, b.cells)
    {
      BoundMeansComparison(s, row, e.left);
      BoundMeansComparison(s, row, e.right);
    }
  }

  ghost predicate RightForEveryRow(s: Schema, e: Expr)
    requires WellFormed(s) && MakeRange(s, Some(e)).Some?
  {
    forall row :: Typed(s, row) ==>
      (InInterval(s, MakeRange(s, Some(e)).value, RowKey(s, row)) <==> Holds(s, row, e))
  }

  /** An accepted, well-typed condition is planned right for every row exactly when
      it has at most one bound per side or the left of its two bounds is redundant. */
  lemma WellTypedIsRightExactlyWhen(s: Schema, e: Expr)
    requires WellFormed(s) && WellTyped(s, e) && MakeRange(s, Some(e)).Some?
    ensures RightForEveryRow(s, e) <==> OneBoundPerSide(s, e) || LeftIsRedundant(s, e)
  {
    hide Holds, InInterval, MakeRange, WellTyped, LeftIsRedundant, RowKey, WellFormed, CmpToBound;
    forall row | Typed(s, row)
      ensures (InInterval(s, MakeRange(s, Some(e)).value, RowKey(s, row)) != Holds(s, row, e))
        <==> !OneBoundPerSide(s, e) && Holds(s, row, e.right) && !Holds(s, row, e.left)
    {
      PlanErrsExactlyOn(s, e, row);
    }
    if !OneBoundPerSide(s, e) { RedundantMeansImplied(s, e); }
  }

  // ---- ranges without rows ----

  /** From where the lower bound holds on, the upper one fails. */
  predicate EmptyRange(s: Schema, req: RangeReq)
    requires WellFormed(s) && IsKeyPrefix(s, req.start) && IsKeyPrefix(s, req.stop)
  {
    Covers(s, Floor(Bound(req.stopCmp, req.stop)), Floor(Bound(req.startCmp, req.start)))
  }

  lemma EmptyExactlyWhen(s: Schema, req: RangeReq)
    requires WellFormed(s) && IsKeyPrefix(s, req.start) && IsKeyPrefix(s, req.stop) && Ascends(req)
    ensures EmptyRange(s, req) <==> forall row :: Typed(s, row) ==> !InInterval(s, req, RowKey(s, row))
  {
    hide PrefixOrdered, FromOn, Covers, Floor, WellFormed, InInterval, RowKey;
    var low, high := Bound(req.startCmp, req.start), Bound(req.stopCmp, req.stop);
    FloorIsFloor(s, low);
    FloorIsFloor(s, high);
    forall row | Typed(s, row)
      ensures InInterval(s, req, RowKey(s, row)) <==> FromOn(s, row, Floor(low)) && !FromOn(s, row, Floor(high))
    {
      IntervalIsPrefixOrder(s, req, row);
      FloorMeans(s, row, low);
      FloorMeans(s, row, high);
    }
    if EmptyRange(s, req) {
      forall row | Typed(s, row) ensures !InInterval(s, req, RowKey(s, row)) {
        if FromOn(s, row, Floor(low)) { CoversSuffices(s, row, Floor(high), Floor(low)); }
      }
    } else {
      var row := CoversNeeded(s, Floor(high), Floor(low));
    }
  }

  lemma PlanShape(s: Schema, e: Expr)
    requires WellFormed(s) && MakeRange(s, Some(e)).Some?
    ensures var req := MakeRange(s, Some(e)).value;
      Ascends(req) && IsKeyPrefix(s, req.start) && IsKeyPrefix(s, req.stop)
  {
    hide CmpToBound, WellFormed;
    if MatchAllEq(e, []).Some? && ExtractPKey(s, MatchAllEq(e, []).value).Some? {
      ExtractedShape(s, MatchAllEq(e, []).value);
    }
  }

  /** With well-typed constants, at most one bound per side or a redundant left one;
      otherwise, a range that can hold no row at all. */
  predicate PlannedRight(s: Schema, e: Expr)
    requires WellFormed(s) && MakeRange(s, Some(e)).Some?
  {
    PlanShape(s, e);
    if WellTyped(s, e) then OneBoundPerSide(s, e) || LeftIsRedundant(s, e)
      else EmptyRange(s, MakeRange(s, Some(e)).value)
  }

  /** Over every condition the planner accepts: this is exactly when the range it
      picks is right for every row. */
  lemma PlanIsRightExactlyWhen(s: Schema, e: Expr)
    requires WellFormed(s) && MakeRange(s, Some(e)).Some?
    ensures RightForEveryRow(s, e) <==> PlannedRight(s, e)
  {
    hide Holds, InInterval, MakeRange, WellTyped, OneBoundPerSide, LeftIsRedundant, RowKey, WellFormed, EmptyRange,
      Ascends, IsKeyPrefix;
    PlanShape(s, e);
    EmptyExactlyWhen(s, MakeRange(s, Some(e)).value);
    if WellTyped(s, e) {
      WellTypedIsRightExactlyWhen(s, e);
    } else {
      forall row | Typed(s, row) ensures !Holds(s, row, e) { IllTypedHoldsNowhere(s, row, e); }
    }
  }

  const ONE_KEY := Schema([116], [Column([97], TypeI64)], [0])

  function Above(n: int64): Expr {
    Bin(GT, Col([97]), Const(Int(n)))
  }

  lemma AboveIsBound(n: int64)
    ensures WellFormed(ONE_KEY) && WellTyped(ONE_KEY, Above(n))
    ensures CmpToBound(ONE_KEY, Above(n)) == Some(Bound(GT, [Int(n)]))
  {
    ColIndexOf(ONE_KEY, 0);
    var ps := DestructureCmp(Col([97]), Const(Int(n))).value;
    assert ps == [NamedCell([97], Int(n))];
    assert TypedPrefix(ONE_KEY, ps) == [Int(n)];
  }

  lemma AboveMeans(n: int64, m: int64)
    ensures Holds(ONE_KEY, [Int(m)], Above(n)) <==> m > n
  {
    ColIndexOf(ONE_KEY, 0);
    ScalarComparison(ONE_KEY, [Int(m)], GT, [97], Int(n));
    assert TupleLess([Int(n)], [Int(m)]) <==> n < m;
  }

  lemma BothBoundsAccepted(n: int64, m: int64)
    ensures var e := Bin(AND, Above(n), Above(m));
      WellFormed(ONE_KEY) && WellTyped(ONE_KEY, e) && MakeRange(ONE_KEY, Some(e)).Some? && !OneBoundPerSide(ONE_KEY, e)
  {
    AboveIsBound(n);
    AboveIsBound(m);
    hide WellFormed, CmpToBound;
  }

  /** `a > 5 AND a > 1` is planned as `a > 1`: a row with a = 3 is selected. */
  lemma ForgottenBound()
    ensures var e, row := Bin(AND, Above(5), Above(1)), [Int(3)];
      WellFormed(ONE_KEY) && Typed(ONE_KEY, row) && WellTyped(ONE_KEY, e) && MakeRange(ONE_KEY, Some(e)).Some? &&
      InInterval(ONE_KEY, MakeRange(ONE_KEY, Some(e)).value, RowKey(ONE_KEY, row)) && !Holds(ONE_KEY, row, e)
  {
    hide WellFormed, CmpToBound, RowKey, InInterval, EvalsTrue, MakeRange, OneBoundPerSide, WellTyped, Above;
    BothBoundsAccepted(5, 1);
    AboveMeans(5, 3);
    AboveMeans(1, 3);
    PlanErrsExactlyOn(ONE_KEY, Bin(AND, Above(5), Above(1)), [Int(3)]);
  }

  // ---- a constant of the wrong type ----

  const MISTYPED := Bin(GE, Col([97]), Const(Cell(TypeStr, 0, [120])))

  lemma MistypedIsBound()
    ensures WellFormed(ONE_KEY) && !WellTyped(ONE_KEY, MISTYPED)
    ensures CmpToBound(ONE_KEY, MISTYPED) == Some(Bound(GE, [Cell(TypeI64, 0, [120])]))
  {
    ColIndexOf(ONE_KEY, 0);
    var ps := DestructureCmp(MISTYPED.left, MISTYPED.right).value;
    assert ps == [NamedCell([97], Cell(TypeStr, 0, [120]))];
    assert TypedPrefix(ONE_KEY, ps) == [Cell(TypeI64, 0, [120])];
    assert !WellTypedPairs(ONE_KEY, ps) by { assert ps[0].value.typ == TypeStr; }
  }

  lemma MistypedPlan()
    ensures WellFormed(ONE_KEY)
    ensures MakeRange(ONE_KEY, Some(MISTYPED)) == Some(RangeReq(GE, LE, [Cell(TypeI64, 0, [120])], []))
  {
    MistypedIsBound();
    hide WellFormed, CmpToBound;
  }

  /** `a >= "x"` is planned as `a >= 0`: the row with a = 0 is selected, although the
      condition holds of no row. */
  lemma MistypedBound()
    ensures var row := [Int(0)];
      WellFormed(ONE_KEY) && Typed(ONE_KEY, row) && MakeRange(ONE_KEY, Some(MISTYPED)).Some? &&
      InInterval(ONE_KEY, MakeRange(ONE_KEY, Some(MISTYPED)).value, RowKey(ONE_KEY, row)) &&
      forall r :: Typed(ONE_KEY, r) ==> !Holds(ONE_KEY, r, MISTYPED)
  {
    var row, low := [Int(0)], [Cell(TypeI64, 0, [120])];
    MistypedIsBound();
    MistypedPlan();
    IntervalIsPrefixOrder(ONE_KEY, RangeReq(GE, LE, low, []), row);
    EmptyPrefixHolds(ONE_KEY, row, LE);
    assert KeyPrefix(ONE_KEY, row, 1) == row;
    SingleTuple(row[0], low[0]);
    hide MakeRange, CmpToBound, Holds, InInterval, RowKey, WellTyped;
    forall r | Typed(ONE_KEY, r) ensures !Holds(ONE_KEY, r, MISTYPED) {
      IllTypedHoldsNowhere(ONE_KEY, r, MISTYPED);
    }
  }
}
