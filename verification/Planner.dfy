/** From a WHERE expression to the byte bounds of one key range. */
module Planner {
  import opened Bytes
  import opened KeyCodec
  import opened Rows
  import opened Expressions

  datatype NamedCell = NamedCell(column: Bytes, value: Cell)

  /** A range over key prefixes; the start comparison decides the direction. */
  datatype RangeReq = RangeReq(startCmp: Op, stopCmp: Op, start: seq<Cell>, stop: seq<Cell>)

  const FULL_SCAN := RangeReq(GE, LE, [], [])

  predicate IsDescending(op: Op) {
    op == LE || op == LT
  }

  /** Which infinity pads a bound: > and <= skip or include everything below the
      prefix, >= and < do not. */
  predicate SuffixPositive(op: Op) {
    op == GT || op == LE
  }

  function StartKey(s: Schema, req: RangeReq): Bytes {
    EncodeKeyPrefix(s, req.start, SuffixPositive(req.startCmp))
  }

  function StopKey(s: Schema, req: RangeReq): Bytes {
    EncodeKeyPrefix(s, req.stop, SuffixPositive(req.stopCmp))
  }

  // ---- recognising shapes ----

  /** `col = const AND col = const AND ...` as a list of pairs. */
  function MatchAllEq(e: Expr, out: seq<NamedCell>): Option<seq<NamedCell>> {
    match e
    case Bin(AND, l, r) =>
      (match MatchAllEq(l, out)
       case None => None
       case Some(o) => MatchAllEq(r, o))
    case Bin(EQ, Col(name), Const(c)) => Some(out + [NamedCell(name, c)])
    case _ => None
  }

  function Retyped(c: Cell, t: CellType): Cell {
    c.(typ := t)
  }

  /** The first pair naming the column, if any. */
  function FirstNamed(keys: seq<NamedCell>, name: Bytes): (i: nat)
    ensures i <= |keys| && (i < |keys| ==> keys[i].column == name)
    ensures forall j :: 0 <= j < i ==> keys[j].column != name
  {
    if keys == [] || keys[0].column == name then 0 else 1 + FirstNamed(keys[1..], name)
  }

  function ExtractFrom(s: Schema, keys: seq<NamedCell>, i: nat): Option<seq<Cell>>
    requires WellFormed(s) && i <= |s.pkey|
    decreases |s.pkey| - i
  {
    if i == |s.pkey| then Some([])
    else
      var col := s.cols[s.pkey[i]];
      var j := FirstNamed(keys, col.name);
      if j == |keys| then None
      else match ExtractFrom(s, keys, i + 1)
        case None => None
        case Some(t) => Some([Retyped(keys[j].value, col.typ)] + t)
  }

  /** Equalities that are exactly the primary key, in whatever order they come. */
  function ExtractPKey(s: Schema, keys: seq<NamedCell>): Option<seq<Cell>>
    requires WellFormed(s)
  {
    if |keys| != |s.pkey| then None else ExtractFrom(s, keys, 0)
  }

  function Pairs(ls: seq<Expr>, rs: seq<Expr>): Option<seq<NamedCell>>
    requires |ls| == |rs|
  {
    if ls == [] then Some([])
    else if !ls[0].Col? || !rs[0].Const? then None
    else match Pairs(ls[1..], rs[1..])
      case None => None
      case Some(t) => Some([NamedCell(ls[0].name, rs[0].cell)] + t)
  }

  /** `col OP const` or `(a, b) OP (x, y)` as columns with constants. */
  function DestructureCmp(l: Expr, r: Expr): Option<seq<NamedCell>> {
    match l
    case Col(name) => if r.Const? then Some([NamedCell(name, r.cell)]) else None
    case Tuple(ls) => if r.Tuple? && |r.kids| == |ls| then Pairs(ls, r.kids) else None
    case _ => None
  }

  predicate IsPKeyPrefix(s: Schema, ps: seq<NamedCell>)
    requires WellFormed(s)
  {
    0 < |ps| <= |s.pkey| && forall i :: 0 <= i < |ps| ==> s.cols[s.pkey[i]].name == ps[i].column
  }

  function TypedPrefix(s: Schema, ps: seq<NamedCell>): (r: seq<Cell>)
    requires WellFormed(s) && |ps| <= |s.pkey|
    ensures |r| == |ps| && IsKeyPrefix(s, r)
    ensures forall i :: 0 <= i < |r| ==> r[i] == Retyped(ps[i].value, s.cols[s.pkey[i]].typ)
  {
    seq(|ps|, i requires 0 <= i < |ps| => Retyped(ps[i].value, s.cols[s.pkey[i]].typ))
  }

  datatype Bound = Bound(op: Op, cells: seq<Cell>)
  {
    predicate IsStart() {
      op == GT || op == GE
    }
  }

  function CmpToBound(s: Schema, e: Expr): (r: Option<Bound>)
    requires WellFormed(s)
    ensures r.Some? ==> IsKeyPrefix(s, r.value.cells) && r.value.op in {GT, GE, LT, LE}
  {
    match e
    case Bin(op, l, right) =>
      if op != GT && op != GE && op != LT && op != LE then None
      else (match DestructureCmp(l, right)
        case None => None
        case Some(ps) => if IsPKeyPrefix(s, ps) then Some(Bound(op, TypedPrefix(s, ps))) else None)
    case _ => None
  }

  function ApplyBound(req: RangeReq, b: Bound): RangeReq {
    if b.IsStart() then req.(startCmp := b.op, start := b.cells) else req.(stopCmp := b.op, stop := b.cells)
  }

  /** One comparison, or two joined by AND; a second bound on the same side
      replaces the first. */
  function MatchRange(s: Schema, e: Expr): Option<RangeReq>
    requires WellFormed(s)
  {
    match e
    case Bin(AND, l, r) =>
      (match CmpToBound(s, l)
       case None => None
       case Some(a) => match CmpToBound(s, r)
         case None => None
         case Some(b) => Some(ApplyBound(ApplyBound(FULL_SCAN, a), b)))
    case Bin(_, _, _) =>
      (match CmpToBound(s, e)
       case None => None
       case Some(b) => Some(ApplyBound(FULL_SCAN, b)))
    case _ => None
  }

  /** A full scan, a point lookup, a range, or a refusal. */
  function MakeRange(s: Schema, cond: Option<Expr>): Option<RangeReq>
    requires WellFormed(s)
  {
    match cond
    case None => Some(FULL_SCAN)
    case Some(e) =>
      var point := match MatchAllEq(e, []) case None => None case Some(keys) => ExtractPKey(s, keys);
      if point.Some? then Some(RangeReq(GE, LE, point.value, point.value)) else MatchRange(s, e)
  }

  // ---- the same decisions as the loops that make them ----

  method FindNamed(keys: seq<NamedCell>, name: Bytes) returns (j: nat)
    ensures j == FirstNamed(keys, name)
  {
    j := 0;
    while j < |keys| && keys[j].column != name
      invariant 0 <= j <= |keys|
      invariant forall q :: 0 <= q < j ==> keys[q].column != name
    {
      j := j + 1;
    }
  }

  method ExtractPKeyLoop(s: Schema, keys: seq<NamedCell>) returns (r: Option<seq<Cell>>)
    requires WellFormed(s)
    ensures r == ExtractPKey(s, keys)
  {
    if |keys| != |s.pkey| {
      return None;
    }
    hide FirstNamed;
    var out: seq<Cell> := [];
    var i := 0;
    assert ExtractFrom(s, keys, 0).Some? ==> out + ExtractFrom(s, keys, 0).value == ExtractFrom(s, keys, 0).value;
    while i < |s.pkey|
      invariant 0 <= i <= |s.pkey|
      invariant ExtractFrom(s, keys, 0) == match ExtractFrom(s, keys, i)
                                           case None => None
                                           case Some(t) => Some(out + t)
    {
      var col := s.cols[s.pkey[i]];
      var j := FindNamed(keys, col.name);
      if j == |keys| {
        return None;
      }
      var c := Retyped(keys[j].value, col.typ);
      assert ExtractFrom(s, keys, i + 1).Some? ==>
        out + ([c] + ExtractFrom(s, keys, i + 1).value) == (out + [c]) + ExtractFrom(s, keys, i + 1).value;
      out := out + [c];
      i := i + 1;
    }
    assert out + [] == out;
    return Some(out);
  }

  method DestructureTuple(ls: seq<Expr>, rs: seq<Expr>) returns (r: Option<seq<NamedCell>>)
    requires |ls| == |rs|
    ensures r == Pairs(ls, rs)
  {
    var out: seq<NamedCell> := [];
    var i := 0;
    assert ls[0..] == ls && rs[0..] == rs;
    assert Pairs(ls, rs).Some? ==> out + Pairs(ls, rs).value == Pairs(ls, rs).value;
    while i < |ls|
      invariant 0 <= i <= |ls|
      invariant Pairs(ls, rs) == match Pairs(ls[i..], rs[i..])
                                 case None => None
                                 case Some(t) => Some(out + t)
    {
      assert ls[i..][1..] == ls[i + 1..] && rs[i..][1..] == rs[i + 1..];
      if !ls[i].Col? || !rs[i].Const? {
        return None;
      }
      var p := NamedCell(ls[i].name, rs[i].cell);
      assert Pairs(ls[i + 1..], rs[i + 1..]).Some? ==>
        out + ([p] + Pairs(ls[i + 1..], rs[i + 1..]).value) == (out + [p]) + Pairs(ls[i + 1..], rs[i + 1..]).value;
      out := out + [p];
      i := i + 1;
    }
    assert out + [] == out;
    return Some(out);
  }

  // ---- correctness of the bounds ----

  /** The key lies between the two bounds of the request. */
  predicate InInterval(s: Schema, req: RangeReq, key: Bytes) {
    AtMost(StartKey(s, req), key) && AtMost(key, StopKey(s, req))
  }

  predicate Ascends(req: RangeReq) {
    (req.startCmp == GE || req.startCmp == GT) && (req.stopCmp == LE || req.stopCmp == LT)
  }

  ghost predicate PrefixOrdered(s: Schema, row: Row, op: Op, prefix: seq<Cell>)
    requires WellFormed(s) && Typed(s, row) && IsKeyPrefix(s, prefix)
  {
    PrefixTypes(s, row, prefix);
    TupleOrdered(op, KeyPrefix(s, row, |prefix|), prefix)
  }

  /** Byte bounds select exactly the rows whose key prefixes satisfy both sides. */
  lemma IntervalIsPrefixOrder(s: Schema, req: RangeReq, row: Row)
    requires WellFormed(s) && Typed(s, row) && Ascends(req)
    requires IsKeyPrefix(s, req.start) && IsKeyPrefix(s, req.stop)
    ensures InInterval(s, req, RowKey(s, row))
      <==> PrefixOrdered(s, row, req.startCmp, req.start) && PrefixOrdered(s, row, req.stopCmp, req.stop)
  {
    hide RowKey, EncodeKeyPrefix, TupleLess, AtMost;
    SentinelBound(s, row, req.start);
    SentinelBound(s, row, req.stop);
  }

  lemma EmptyPrefixHolds(s: Schema, row: Row, op: Op)
    requires WellFormed(s) && Typed(s, row) && (op == GE || op == LE)
    ensures IsKeyPrefix(s, []) && PrefixOrdered(s, row, op, [])
  {
  }

  lemma {:induction false} ColIndexOf(s: Schema, i: nat)
    requires WellFormed(s) && i < |s.cols|
    ensures ColIndex(s, s.cols[i].name) == i
  {
    var k := ColIndex(s, s.cols[i].name);
  }

  // ---- comparisons mean their bounds ----

  /** Every constant has the type of the column it is compared with. */
  predicate WellTypedPairs(s: Schema, ps: seq<NamedCell>) {
    forall i :: 0 <= i < |ps| ==>
      ColIndex(s, ps[i].column) >= 0 && s.cols[ColIndex(s, ps[i].column)].typ == ps[i].value.typ
  }

  predicate WellTyped(s: Schema, e: Expr) {
    match e
    case Bin(AND, l, r) => WellTyped(s, l) && WellTyped(s, r)
    case Bin(_, l, r) => (match DestructureCmp(l, r) case None => true case Some(ps) => WellTypedPairs(s, ps))
    case _ => true
  }

  lemma PairEvaluates(s: Schema, row: Row, l: Expr, r: Expr)
    requires |row| == |s.cols| && l.Col? && r.Const?
    ensures ColIndex(s, l.name) >= 0 ==> Eval(s, row, l) == Ok(row[ColIndex(s, l.name)])
    ensures Eval(s, row, r) == Ok(r.cell)
  {
  }

  /** The two sides of a destructured comparison evaluate to the columns and the
      constants. */
  lemma {:induction false} PairsEvaluate(s: Schema, row: Row, ls: seq<Expr>, rs: seq<Expr>)
    requires |row| == |s.cols| && |ls| == |rs| && Pairs(ls, rs).Some?
    requires WellTypedPairs(s, Pairs(ls, rs).value)
    ensures |Pairs(ls, rs).value| == |ls|
    ensures var a, b, ps := Values(EvalEach(s, row, ls)), Values(EvalEach(s, row, rs)), Pairs(ls, rs).value;
      a.Some? && b.Some? &&
      forall i :: 0 <= i < |ps| ==> a.value[i] == row[ColIndex(s, ps[i].column)] && b.value[i] == ps[i].value
  {
    hide ColIndex, Eval;
    if ls != [] {
      PairEvaluates(s, row, ls[0], rs[0]);
      var ps, t := Pairs(ls, rs).value, Pairs(ls[1..], rs[1..]).value;
      assert ps[1..] == t;
      assert forall i :: 0 <= i < |t| ==> t[i] == ps[i + 1];
      assert ColIndex(s, ps[0].column) >= 0;
      PairsEvaluate(s, row, ls[1..], rs[1..]);
    }
  }

  lemma ScalarComparison(s: Schema, row: Row, op: Op, name: Bytes, c: Cell)
    requires WellFormed(s) && Typed(s, row) && ColIndex(s, name) >= 0 && row[ColIndex(s, name)].typ == c.typ
    requires op in {GT, GE, LT, LE, EQ}
    ensures var a := [row[ColIndex(s, name)]];
      SameTypes(a, [c]) && SameTypes([c], a) &&
      (EvalsTrue(s, row, Bin(op, Col(name), Const(c))) <==> TupleOrdered(op, a, [c]))
  {
    var x := row[ColIndex(s, name)];
    Trichotomy(x.str, c.str);
    Trichotomy(c.str, x.str);
    assert Eval(s, row, Col(name)) == Ok(x) && Eval(s, row, Const(c)) == Ok(c);
    assert Eval(s, row, Bin(op, Col(name), Const(c))) == Ok(Bool(Ordered(op, Cmp(x, c).value)));
    SingleTuple(x, c);
    SingleTuple(c, x);
  }

  lemma SingleTuple(x: Cell, c: Cell)
    requires x.typ == c.typ
    ensures SameTypes([x], [c]) && TupleLess([x], [c]) == CellLess(x, c) && TupleEq([x], [c]) == CellEq(x, c)
  {
    assert [x][0] == x && [c][0] == c && !TupleLess([x][1..], [c][1..]);
  }

  /** The columns of an accepted comparison are the leading key columns of the row. */
  lemma PrefixColumns(s: Schema, row: Row, ps: seq<NamedCell>)
    requires WellFormed(s) && Typed(s, row) && IsPKeyPrefix(s, ps) && WellTypedPairs(s, ps)
    ensures forall i :: 0 <= i < |ps| ==> ColIndex(s, ps[i].column) == s.pkey[i]
    ensures forall i :: 0 <= i < |ps| ==> KeyPrefix(s, row, |ps|)[i] == row[ColIndex(s, ps[i].column)]
    ensures forall i :: 0 <= i < |ps| ==> TypedPrefix(s, ps)[i] == ps[i].value
  {
    forall i | 0 <= i < |ps| ensures ColIndex(s, ps[i].column) == s.pkey[i] {
      ColIndexOf(s, s.pkey[i]);
    }
  }

  /** A comparison turned into a bound means exactly that bound. */
  lemma BoundMeansComparison(s: Schema, row: Row, e: Expr)
    requires WellFormed(s) && Typed(s, row) && CmpToBound(s, e).Some? && WellTyped(s, e)
    ensures Holds(s, row, e) <==> PrefixOrdered(s, row, CmpToBound(s, e).value.op, CmpToBound(s, e).value.cells)
  {
    var b := CmpToBound(s, e).value;
    var ps := DestructureCmp(e.left, e.right).value;
    PrefixColumns(s, row, ps);
    PrefixTypes(s, row, b.cells);
    match e.left
    case Col(name) =>
      ScalarComparison(s, row, e.op, name, ps[0].value);
      assert KeyPrefix(s, row, 1) == [row[ColIndex(s, name)]] && b.cells == [ps[0].value];
    case Tuple(ls) =>
      PairsEvaluate(s, row, ls, e.right.kids);
      var x, y := Values(EvalEach(s, row, ls)).value, Values(EvalEach(s, row, e.right.kids)).value;
      assert x == KeyPrefix(s, row, |ps|) && y == b.cells;
  }

  // ---- point lookups ----

  predicate Equality(s: Schema, row: Row, nc: NamedCell)
    requires |row| == |s.cols|
  {
    Holds(s, row, Bin(EQ, Col(nc.column), Const(nc.value)))
  }

  ghost predicate AllEqual(s: Schema, row: Row, keys: seq<NamedCell>)
    requires |row| == |s.cols|
  {
    forall i :: 0 <= i < |keys| ==> Equality(s, row, keys[i])
  }

  /** The pairs collected from a conjunction of equalities say what it says. */
  lemma {:induction false} MatchAllEqMeans(s: Schema, row: Row, e: Expr, out: seq<NamedCell>)
    requires |row| == |s.cols| && MatchAllEq(e, out).Some?
    ensures var keys := MatchAllEq(e, out).value;
      out <= keys && (AllEqual(s, row, keys) <==> AllEqual(s, row, out) && Holds(s, row, e)) &&
      (WellTypedPairs(s, keys) <==> WellTypedPairs(s, out) && WellTyped(s, e))
  {
    hide EvalsTrue;
    match e
    case Bin(AND, l, r) =>
      MatchAllEqMeans(s, row, l, out);
      MatchAllEqMeans(s, row, r, MatchAllEq(l, out).value);
    case Bin(EQ, Col(name), Const(c)) =>
      var keys := out + [NamedCell(name, c)];
      assert keys[|out|] == NamedCell(name, c) && forall i :: 0 <= i < |out| ==> keys[i] == out[i];
      OnePair(s, name, c);
  }

  lemma OnePair(s: Schema, name: Bytes, c: Cell)
    ensures WellTyped(s, Bin(EQ, Col(name), Const(c))) <==> WellTypedPairs(s, [NamedCell(name, c)])
    ensures WellTypedPairs(s, [NamedCell(name, c)]) <==>
      ColIndex(s, name) >= 0 && s.cols[ColIndex(s, name)].typ == c.typ
  {
    assert [NamedCell(name, c)][0].column == name;
  }

  /** A list of n distinct numbers below n contains every number below n. */
  lemma {:induction false} Pigeonhole(f: seq<nat>, n: nat)
    requires |f| == n && (forall i :: 0 <= i < n ==> f[i] < n)
    requires forall i, j :: 0 <= i < j < n ==> f[i] != f[j]
    ensures forall v :: 0 <= v < n ==> v in f
  {
    DistinctSize(f);
    forall v | 0 <= v < n ensures v in f {
      if v !in f {
        SubsetSize(Elements(f), Below(n) - {v});
        assert false;
      }
    }
  }

  ghost function Below(n: nat): (r: set<nat>)
    ensures |r| == n && forall v: nat :: v in r <==> v < n
  {
    if n == 0 then {} else Below(n - 1) + {n - 1}
  }

  ghost function Elements(f: seq<nat>): (r: set<nat>)
    ensures forall v: nat :: v in r <==> v in f
  {
    if f == [] then {} else {f[0]} + Elements(f[1..])
  }

  lemma {:induction false} DistinctSize(f: seq<nat>)
    requires forall i, j :: 0 <= i < j < |f| ==> f[i] != f[j]
    ensures |Elements(f)| == |f|
  {
    if f != [] {
      DistinctSize(f[1..]);
      assert f[0] !in f[1..];
    }
  }

  lemma {:induction false} SubsetSize(a: set<nat>, b: set<nat>)
    requires a <= b
    ensures |a| <= |b|
    decreases |a|
  {
    if a != {} {
      var x :| x in a;
      SubsetSize(a - {x}, b - {x});
    }
  }

  ghost function Chosen(s: Schema, keys: seq<NamedCell>): (f: seq<nat>)
    requires WellFormed(s)
    ensures |f| == |s.pkey| && forall i :: 0 <= i < |f| ==> f[i] == FirstNamed(keys, s.cols[s.pkey[i]].name)
  {
    seq(|s.pkey|, i requires 0 <= i < |s.pkey| => FirstNamed(keys, s.cols[s.pkey[i]].name))
  }

  lemma {:induction false} ExtractedCells(s: Schema, keys: seq<NamedCell>, i: nat)
    requires WellFormed(s) && i <= |s.pkey| && ExtractFrom(s, keys, i).Some?
    ensures var out := ExtractFrom(s, keys, i).value;
      |out| == |s.pkey| - i &&
      forall q :: i <= q < |s.pkey| ==>
        FirstNamed(keys, s.cols[s.pkey[q]].name) < |keys| &&
        out[q - i] == Retyped(keys[FirstNamed(keys, s.cols[s.pkey[q]].name)].value, s.cols[s.pkey[q]].typ)
    decreases |s.pkey| - i
  {
    if i < |s.pkey| { ExtractedCells(s, keys, i + 1); }
  }

  lemma ExtractedShape(s: Schema, keys: seq<NamedCell>)
    requires WellFormed(s) && ExtractPKey(s, keys).Some?
    ensures var p := ExtractPKey(s, keys).value;
      |p| == |s.pkey| == |keys| && IsKeyPrefix(s, p)
  {
    ExtractedCells(s, keys, 0);
  }

  /** Exactly as many equalities as key columns, each key column named: then no
      equality is about anything else, and together they say what the key is. */
  lemma PointMeansEqualities(s: Schema, row: Row, keys: seq<NamedCell>)
    requires WellFormed(s) && Typed(s, row) && ExtractPKey(s, keys).Some? && WellTypedPairs(s, keys)
    ensures IsKeyPrefix(s, ExtractPKey(s, keys).value) && |ExtractPKey(s, keys).value| == |s.pkey|
    ensures AllEqual(s, row, keys) <==> PrefixOrdered(s, row, EQ, ExtractPKey(s, keys).value)
  {
    var p, f := ExtractPKey(s, keys).value, Chosen(s, keys);
    ExtractedShape(s, keys);
    ChosenCovers(s, keys);
    PrefixTypes(s, row, p);
    var q := KeyPrefix(s, row, |p|);
    hide ExtractPKey, Equality, CellEq, WellTypedPairs, FirstNamed, WellFormed, Typed, IsKeyPrefix, SameTypes;
    var a := CellFlags(q, p);
    var b := Flags(s, row, keys);
    forall i | 0 <= i < |f| ensures f[i] < |keys| && (a[i] <==> b[f[i]]) {
      EqualityAt(s, row, keys, i);
    }
    Reindexed(f, a, b);
    hide AllEqual, Flags, CellFlags, TupleEq;
    CellFlagsSay(q, p);
    FlagsSay(s, row, keys);
  }

  ghost function CellFlags(q: seq<Cell>, p: seq<Cell>): (a: seq<bool>)
    requires SameTypes(q, p)
    ensures |a| == |q| && forall i :: 0 <= i < |a| ==> a[i] == CellEq(q[i], p[i])
  {
    seq(|q|, i requires 0 <= i < |q| => CellEq(q[i], p[i]))
  }

  lemma CellFlagsSay(q: seq<Cell>, p: seq<Cell>)
    requires SameTypes(q, p)
    ensures TupleEq(q, p) <==> forall i :: 0 <= i < |q| ==> CellFlags(q, p)[i]
  {
    var a := CellFlags(q, p);
    if forall i :: 0 <= i < |a| ==> a[i] {
      forall i | 0 <= i < |q| ensures CellEq(q[i], p[i]) { assert a[i]; }
    }
  }

  ghost function Flags(s: Schema, row: Row, keys: seq<NamedCell>): (b: seq<bool>)
    requires |row| == |s.cols|
    ensures |b| == |keys| && forall v :: 0 <= v < |b| ==> b[v] == Equality(s, row, keys[v])
  {
    seq(|keys|, v requires 0 <= v < |keys| => Equality(s, row, keys[v]))
  }

  lemma FlagsSay(s: Schema, row: Row, keys: seq<NamedCell>)
    requires |row| == |s.cols|
    ensures AllEqual(s, row, keys) <==> forall v :: 0 <= v < |keys| ==> Flags(s, row, keys)[v]
  {
    hide Equality;
    var b := Flags(s, row, keys);
    if AllEqual(s, row, keys) {
      forall v | 0 <= v < |b| ensures b[v] { assert Equality(s, row, keys[v]); }
    }
    if forall v :: 0 <= v < |b| ==> b[v] {
      forall v | 0 <= v < |keys| ensures Equality(s, row, keys[v]) { assert b[v]; }
    }
  }

  lemma Reindexed(f: seq<nat>, a: seq<bool>, b: seq<bool>)
    requires |f| == |a| && forall i :: 0 <= i < |f| ==> f[i] < |b| && (a[i] <==> b[f[i]])
    requires forall v :: 0 <= v < |b| ==> v in f
    ensures (forall i :: 0 <= i < |a| ==> a[i]) <==> (forall v :: 0 <= v < |b| ==> b[v])
  {
    if forall i :: 0 <= i < |a| ==> a[i] {
      forall v | 0 <= v < |b| ensures b[v] {
        assert v in f;
      }
    }
  }

  /** One chosen equality says what its key cell says. */
  lemma EqualityAt(s: Schema, row: Row, keys: seq<NamedCell>, i: nat)
    requires WellFormed(s) && Typed(s, row) && ExtractPKey(s, keys).Some? && WellTypedPairs(s, keys) && i < |s.pkey|
    ensures var p, j := ExtractPKey(s, keys).value, FirstNamed(keys, s.cols[s.pkey[i]].name);
      j < |keys| && i < |p| && p[i].typ == row[s.pkey[i]].typ &&
      (Equality(s, row, keys[j]) <==> CellEq(row[s.pkey[i]], p[i]))
  {
    hide Equality;
    ExtractedCells(s, keys, 0);
    KeyedEquality(s, row, keys[FirstNamed(keys, s.cols[s.pkey[i]].name)], i);
  }

  /** The equalities chosen for the key columns are all there are. */
  lemma ChosenCovers(s: Schema, keys: seq<NamedCell>)
    requires WellFormed(s) && ExtractPKey(s, keys).Some?
    ensures |keys| == |s.pkey| && forall v :: 0 <= v < |keys| ==> v in Chosen(s, keys)
  {
    var f := Chosen(s, keys);
    ExtractedCells(s, keys, 0);
    forall i, j | 0 <= i < j < |f| ensures f[i] != f[j] {
      assert keys[f[i]].column != keys[f[j]].column;
    }
    Pigeonhole(f, |keys|);
  }

  lemma KeyedEquality(s: Schema, row: Row, nc: NamedCell, i: nat)
    requires WellFormed(s) && Typed(s, row) && i < |s.pkey| && nc.column == s.cols[s.pkey[i]].name
    requires ColIndex(s, nc.column) >= 0 && s.cols[ColIndex(s, nc.column)].typ == nc.value.typ
    ensures nc.value.typ == s.cols[s.pkey[i]].typ
    ensures Equality(s, row, nc) <==> CellEq(row[s.pkey[i]], nc.value)
  {
    ColIndexOf(s, s.pkey[i]);
    ScalarComparison(s, row, EQ, nc.column, nc.value);
    assert [row[s.pkey[i]]][0] == row[s.pkey[i]];
  }

  // ---- the planner preserves meaning ----

  /** At most one lower and one upper bound. */
  predicate OneBoundPerSide(s: Schema, e: Expr)
    requires WellFormed(s)
  {
    match e
    case Bin(AND, l, r) =>
      var a, b := CmpToBound(s, l), CmpToBound(s, r);
      !(a.Some? && b.Some? && a.value.IsStart() == b.value.IsStart())
    case _ => true
  }

  /** The condition that the chosen range really serves: with two bounds on one
      side the left one is forgotten. */
  function Served(s: Schema, e: Expr): Expr
    requires WellFormed(s)
  {
    if OneBoundPerSide(s, e) then e else e.right
  }

  lemma RangeIsExact(s: Schema, e: Expr, row: Row)
    requires WellFormed(s) && Typed(s, row) && WellTyped(s, e) && MatchRange(s, e).Some?
    ensures Ascends(MatchRange(s, e).value)
    ensures InInterval(s, MatchRange(s, e).value, RowKey(s, row)) <==>
      Holds(s, row, Served(s, e))
  {
    hide PrefixOrdered, InInterval, CmpToBound, WellFormed, Typed;
    var req := MatchRange(s, e).value;
    EmptyPrefixHolds(s, row, GE);
    EmptyPrefixHolds(s, row, LE);
    IntervalIsPrefixOrder(s, req, row);
    match e
    case Bin(AND, l, r) =>
      BoundMeansComparison(s, row, l);
      BoundMeansComparison(s, row, r);
    case _ =>
      BoundMeansComparison(s, row, e);
  }

  lemma PointIsExact(s: Schema, e: Expr, row: Row)
    requires WellFormed(s) && Typed(s, row) && WellTyped(s, e)
    requires MatchAllEq(e, []).Some? && ExtractPKey(s, MatchAllEq(e, []).value).Some?
    ensures var p := ExtractPKey(s, MatchAllEq(e, []).value).value;
      InInterval(s, RangeReq(GE, LE, p, p), RowKey(s, row)) <==> Holds(s, row, e)
  {
    hide Holds, InInterval, WellFormed, ExtractPKey, MatchAllEq, TupleLess, TupleEq;
    var keys := MatchAllEq(e, []).value;
    var p := ExtractPKey(s, keys).value;
    MatchAllEqMeans(s, row, e, []);
    PointMeansEqualities(s, row, keys);
    IntervalIsPrefixOrder(s, RangeReq(GE, LE, p, p), row);
    PrefixTypes(s, row, p);
    TupleTrichotomy(KeyPrefix(s, row, |p|), p);
    TupleTrichotomy(p, KeyPrefix(s, row, |p|));
    EqSymmetric(KeyPrefix(s, row, |p|), p);
  }

  /** Whenever the planner accepts a condition whose constants have their columns'
      types, the byte interval it picks selects exactly the rows satisfying the
      condition it serves ... */
  lemma PlanServes(s: Schema, e: Expr, row: Row)
    requires WellFormed(s) && Typed(s, row) && WellTyped(s, e) && MakeRange(s, Some(e)).Some?
    ensures Ascends(MakeRange(s, Some(e)).value)
    ensures InInterval(s, MakeRange(s, Some(e)).value, RowKey(s, row)) <==> Holds(s, row, Served(s, e))
  {
    hide Holds, InInterval, WellTyped;
    if MatchAllEq(e, []).Some? && ExtractPKey(s, MatchAllEq(e, []).value).Some? {
      PointIsExact(s, e, row);
    } else {
      RangeIsExact(s, e, row);
    }
  }

  /** ... which is the whole condition when it has at most one bound per side. */
  lemma PlanIsExact(s: Schema, e: Expr, row: Row)
    requires WellFormed(s) && Typed(s, row) && WellTyped(s, e) && MakeRange(s, Some(e)).Some?
    requires OneBoundPerSide(s, e)
    ensures InInterval(s, MakeRange(s, Some(e)).value, RowKey(s, row)) <==> Holds(s, row, e)
  {
    PlanServes(s, e, row);
  }

  /** Otherwise it goes wrong on exactly the rows that meet the right bound and
      fail the forgotten left one. */
  lemma PlanErrsExactlyOn(s: Schema, e: Expr, row: Row)
    requires WellFormed(s) && Typed(s, row) && WellTyped(s, e) && MakeRange(s, Some(e)).Some?
    ensures (InInterval(s, MakeRange(s, Some(e)).value, RowKey(s, row)) != Holds(s, row, e))
      <==> !OneBoundPerSide(s, e) && Holds(s, row, e.right) && !Holds(s, row, e.left)
  {
    hide WellTyped, InInterval, MakeRange;
    PlanServes(s, e, row);
  }
}
