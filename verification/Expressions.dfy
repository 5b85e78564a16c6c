/** Expression trees and the interpreter that gives them their meaning. */
module Expressions {
  import opened Bytes
  import opened KeyCodec
  import opened Rows

  datatype Op = ADD | SUB | MUL | DIV | OR | AND | NOT | NEG | EQ | NE | LE | GE | LT | GT

  datatype Expr =
    | Col(name: Bytes)
    | Const(cell: Cell)
    | Bin(op: Op, left: Expr, right: Expr)
    | Un(uop: Op, kid: Expr)
    | Tuple(kids: seq<Expr>)

  datatype EvalError = NoSuchColumn | TypeError | DivisionByZero | UnknownOperator | CannotEvaluate

  function ColIndex(s: Schema, name: Bytes): (i: int)
    ensures -1 <= i < |s.cols|
    ensures i >= 0 ==> s.cols[i].name == name && forall j :: 0 <= j < i ==> s.cols[j].name != name
    ensures i == -1 ==> forall j :: 0 <= j < |s.cols| ==> s.cols[j].name != name
  {
    ColIndexFrom(s, name, 0)
  }

  function ColIndexFrom(s: Schema, name: Bytes, from: nat): (i: int)
    requires from <= |s.cols|
    ensures -1 <= i < |s.cols| && (i >= 0 ==> i >= from)
    ensures i >= 0 ==> s.cols[i].name == name && forall j :: from <= j < i ==> s.cols[j].name != name
    ensures i == -1 ==> forall j :: from <= j < |s.cols| ==> s.cols[j].name != name
    decreases |s.cols| - from
  {
    if from == |s.cols| then -1 else if s.cols[from].name == name then from else ColIndexFrom(s, name, from + 1)
  }

  function Int(n: int64): Cell {
    Cell(TypeI64, n, [])
  }

  function Bool(b: bool): Cell {
    if b then Int(1) else Int(0)
  }

  function Truthy(c: Cell): bool {
    if c.typ.TypeStr? then |c.str| > 0 else c.num != 0
  }

  /** int64 arithmetic wraps around. */
  function Wrap(n: int): int64 {
    var u := n % U64;
    if u >= I63 then u - U64 else u
  }

  /** Division truncates toward zero. */
  function Quotient(a: int, b: int): int
    requires b != 0
  {
    if a >= 0 then (if b > 0 then a / b else -(a / -b))
    else if b > 0 then -(-a / b) else -a / -b
  }

  /** The wrapped value is the one 64-bit number congruent to the exact one. */
  lemma WrapIsCongruent(n: int, m: int64)
    ensures Wrap(n) % U64 == n % U64
    ensures m % U64 == n % U64 ==> m == Wrap(n)
  {
  }

  lemma Negated(x: int, y: int)
    ensures (-x) * y == -(x * y) && x * -y == -(x * y)
  {
  }

  lemma Remainder(a: nat, b: int)
    requires b > 0
    ensures 0 <= a - (a / b) * b < b
  {
    assert a == (a / b) * b + a % b;
  }

  /** What is left over has the dividend's sign and is smaller than the divisor. */
  lemma QuotientTruncates(a: int, b: int)
    requires b != 0
    ensures var r := a - Quotient(a, b) * b;
      (if a >= 0 then r >= 0 else r <= 0) && (if r >= 0 then r else -r) < (if b >= 0 then b else -b)
  {
    var n, d := if a >= 0 then a else -a, if b >= 0 then b else -b;
    var q := n / d;
    Remainder(n, d);
    Negated(q, d);
    assert Quotient(a, b) == if (a >= 0) == (b >= 0) then q else -q;
    hide Quotient;
  }

  function Cmp(a: Cell, b: Cell): Option<int> {
    if a.typ != b.typ then None
    else if a.typ.TypeStr? then Some(Compare(a.str, b.str))
    else Some(if a.num < b.num then -1 else if a.num > b.num then 1 else 0)
  }

  function Ordered(op: Op, r: int): bool {
    match op
    case EQ => r == 0
    case NE => r != 0
    case LT => r < 0
    case LE => r <= 0
    case GT => r > 0
    case _ => r >= 0
  }

  function Arithmetic(op: Op, a: int64, b: int64): Result<Cell, EvalError> {
    if op == ADD then Ok(Int(Wrap(a + b)))
    else if op == SUB then Ok(Int(Wrap(a - b)))
    else if op == MUL then Ok(Int(Wrap(a * b)))
    else if b == 0 then Err(DivisionByZero)
    else Ok(Int(Wrap(Quotient(a, b))))
  }

  function EvalBinOp(op: Op, a: Cell, b: Cell): Result<Cell, EvalError> {
    match op
    case ADD | SUB | MUL | DIV =>
      if !a.typ.TypeI64? || !b.typ.TypeI64? then Err(TypeError) else Arithmetic(op, a.num, b.num)
    case EQ | NE | LT | LE | GT | GE =>
      (match Cmp(a, b)
       case None => Err(TypeError)
       case Some(r) => Ok(Bool(Ordered(op, r))))
    case AND => Ok(Bool(Truthy(a) && Truthy(b)))
    case OR => Ok(Bool(Truthy(a) || Truthy(b)))
    case _ => Err(UnknownOperator)
  }

  /** evalExpr: a post-order walk; AND and OR stop at a deciding left operand. */
  function Eval(s: Schema, row: Row, e: Expr): Result<Cell, EvalError>
    requires |row| == |s.cols|
  {
    match e
    case Col(name) =>
      var i := ColIndex(s, name);
      if i < 0 then Err(NoSuchColumn) else Ok(row[i])
    case Const(c) => Ok(c)
    case Bin(op, l, r) =>
      (match Eval(s, row, l)
       case Err(x) => Err(x)
       case Ok(a) =>
         if op == AND && !Truthy(a) then Ok(Bool(false))
         else if op == OR && Truthy(a) then Ok(Bool(true))
         else match Eval(s, row, r)
           case Err(x) => Err(x)
           case Ok(b) => EvalBinOp(op, a, b))
    case Un(op, kid) =>
      (match Eval(s, row, kid)
       case Err(x) => Err(x)
       case Ok(a) => match op
         case NOT => Ok(Bool(!Truthy(a)))
         case NEG => if a.typ.TypeI64? then Ok(Int(Wrap(0 - a.num))) else Err(TypeError)
         case _ => Err(UnknownOperator))
    case Tuple(_) => Err(CannotEvaluate)
  }

  /** The row makes the expression true. */
  predicate EvalsTrue(s: Schema, row: Row, e: Expr)
    requires |row| == |s.cols|
  {
    Eval(s, row, e).Ok? && Truthy(Eval(s, row, e).value)
  }

  // ---- what a WHERE expression means ----

  predicate IsComparison(op: Op) {
    op == EQ || op == NE || op == LT || op == LE || op == GT || op == GE
  }

  function EvalEach(s: Schema, row: Row, es: seq<Expr>): (r: seq<Result<Cell, EvalError>>)
    requires |row| == |s.cols|
    ensures |r| == |es|
  {
    if es == [] then [] else [Eval(s, row, es[0])] + EvalEach(s, row, es[1..])
  }

  /** The values of a tuple's members when all of them have one. */
  function Values(rs: seq<Result<Cell, EvalError>>): (r: Option<seq<Cell>>)
    ensures r.Some? ==> |r.value| == |rs|
  {
    if rs == [] then Some([])
    else if rs[0].Err? then None
    else match Values(rs[1..])
      case None => None
      case Some(t) => Some([rs[0].value] + t)
  }

  /** Lexicographic comparison of equally typed tuples. */
  predicate TupleOrdered(op: Op, a: seq<Cell>, b: seq<Cell>)
    requires SameTypes(a, b) && SameTypes(b, a)
  {
    match op
    case EQ => TupleEq(a, b)
    case NE => !TupleEq(a, b)
    case LT => TupleLess(a, b)
    case LE => !TupleLess(b, a)
    case GT => TupleLess(b, a)
    case _ => !TupleLess(a, b)
  }

  /** The reference meaning of a condition: conjunctions hold when both sides do,
      tuple comparisons are lexicographic, anything else is interpreted. */
  predicate Holds(s: Schema, row: Row, e: Expr)
    requires |row| == |s.cols|
  {
    match e
    case Bin(AND, l, r) => Holds(s, row, l) && Holds(s, row, r)
    case Bin(op, Tuple(ls), Tuple(rs)) =>
      var a, b := Values(EvalEach(s, row, ls)), Values(EvalEach(s, row, rs));
      IsComparison(op) && a.Some? && b.Some? && SameTypes(a.value, b.value) && SameTypes(b.value, a.value) &&
      TupleOrdered(op, a.value, b.value)
    case _ => EvalsTrue(s, row, e)
  }

  predicate TupleFree(e: Expr) {
    match e
    case Tuple(_) => false
    case Bin(_, l, r) => TupleFree(l) && TupleFree(r)
    case Un(_, kid) => TupleFree(kid)
    case _ => true
  }

  /** On expressions without tuples the meaning is exactly the interpreter's. */
  lemma {:induction false} HoldsIsEval(s: Schema, row: Row, e: Expr)
    requires |row| == |s.cols| && TupleFree(e)
    ensures Holds(s, row, e) <==> EvalsTrue(s, row, e)
  {
    match e
    case Bin(AND, l, r) =>
      HoldsIsEval(s, row, l);
      HoldsIsEval(s, row, r);
    case _ =>
  }
}
