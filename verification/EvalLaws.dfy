/** What the interpreter computes, operator by operator, told on integers, byte
    strings and truth values. */
module EvalLaws {
  import opened Bytes
  import opened KeyCodec
  import opened Rows
  import opened Expressions

  /** A number other than zero, or a string other than the empty one. */
  predicate IsTrue(c: Cell) {
    match c.typ
    case TypeI64 => c.num != 0
    case TypeStr => c.str != []
  }

  predicate IsInt(r: Result<Cell, EvalError>) {
    r.Ok? && r.value.typ == TypeI64
  }

  /** The number 1 for true and 0 for false. */
  predicate Says(r: Result<Cell, EvalError>, truth: bool) {
    IsInt(r) && r.value.num == if truth then 1 else 0
  }

  /** A 64-bit number that differs from `n` by a multiple of 2^64. */
  ghost predicate IsModulo(r: Result<Cell, EvalError>, n: int) {
    IsInt(r) && (r.value.num - n) % U64 == 0
  }

  /** `q` is a/b without its fraction: the remainder is smaller than the divisor and
      has the dividend's sign. */
  ghost predicate IsQuotient(a: int, b: int, q: int) {
    var r := a - q * b;
    (if a >= 0 then 0 <= r else r <= 0) && -(if b < 0 then -b else b) < r < if b < 0 then -b else b
  }

  // ---- columns and constants ----

  /** A column means the first of its name, and fails exactly where there is none. */
  lemma LeafLaws(s: Schema, row: Row, name: Bytes, c: Cell, kids: seq<Expr>)
    requires |row| == |s.cols|
    ensures Eval(s, row, Const(c)) == Ok(c)
    ensures Eval(s, row, Tuple(kids)).Err?
    ensures Eval(s, row, Col(name)).Err? <==> forall j :: 0 <= j < |s.cols| ==> s.cols[j].name != name
    ensures forall j: nat :: FirstOfName(s, name, j) ==> Eval(s, row, Col(name)) == Ok(row[j])
  {
    var i := ColIndex(s, name);
    assert forall j: nat :: FirstOfName(s, name, j) ==> i == j;
  }

  predicate FirstOfName(s: Schema, name: Bytes, j: nat) {
    j < |s.cols| && s.cols[j].name == name && forall i :: 0 <= i < j ==> s.cols[i].name != name
  }

  // ---- errors and short circuits ----

  /** A failing left operand fails the whole; a failing right one does, unless the left
      one decides. */
  lemma ErrorLaws(s: Schema, row: Row, op: Op, l: Expr, r: Expr)
    requires |row| == |s.cols|
    ensures var a, b, e := Eval(s, row, l), Eval(s, row, r), Eval(s, row, Bin(op, l, r));
      && (a.Err? ==> e == a)
      && (a.Ok? && op == AND && !IsTrue(a.value) ==> Says(e, false))
      && (a.Ok? && op == OR && IsTrue(a.value) ==> Says(e, true))
      && (a.Ok? && b.Err? && !(op == AND && !IsTrue(a.value)) && !(op == OR && IsTrue(a.value)) ==> e == b)
  {
  }

  // ---- operators on the values of their operands ----

  /** Unless the left operand decides, the operator is applied to both values. */
  lemma Applied(s: Schema, row: Row, op: Op, l: Expr, r: Expr)
    requires |row| == |s.cols| && Eval(s, row, l).Ok? && Eval(s, row, r).Ok? && op != AND && op != OR
    ensures Eval(s, row, Bin(op, l, r)) == EvalBinOp(op, Eval(s, row, l).value, Eval(s, row, r).value)
  {
    hide EvalBinOp;
  }

  lemma WrapIsModulo(n: int)
    ensures IsModulo(Ok(Int(Wrap(n))), n)
  {
  }

  /** Sum, difference and product modulo 2^64; the truncated quotient, with a zero
      divisor an error; and an error unless both operands are integers. */
  lemma ArithmeticOnCells(a: Cell, b: Cell)
    ensures a.typ == TypeI64 && b.typ == TypeI64 ==>
      && IsModulo(EvalBinOp(ADD, a, b), a.num + b.num)
      && IsModulo(EvalBinOp(SUB, a, b), a.num - b.num)
      && IsModulo(EvalBinOp(MUL, a, b), a.num * b.num)
    ensures a.typ == TypeI64 && b.typ == TypeI64 && b.num == 0 ==> EvalBinOp(DIV, a, b) == Err(DivisionByZero)
    ensures a.typ == TypeI64 && b.typ == TypeI64 && b.num != 0 ==>
      exists q :: IsQuotient(a.num, b.num, q) && IsModulo(EvalBinOp(DIV, a, b), q)
    ensures a.typ != TypeI64 || b.typ != TypeI64 ==>
      forall op :: op == ADD || op == SUB || op == MUL || op == DIV ==> EvalBinOp(op, a, b) == Err(TypeError)
  {
    hide Wrap, Quotient, IsModulo;
    WrapIsModulo(a.num + b.num);
    WrapIsModulo(a.num - b.num);
    WrapIsModulo(a.num * b.num);
    if b.num != 0 {
      var q := Quotient(a.num, b.num);
      WrapIsModulo(q);
      QuotientTruncates(a.num, b.num);
      assert IsQuotient(a.num, b.num, q);
    }
  }

  /** The order of the integers and that of byte strings; values of different types
      do not compare. */
  lemma ComparisonOnCells(a: Cell, b: Cell)
    ensures a.typ != b.typ ==> forall op :: IsComparison(op) ==> EvalBinOp(op, a, b) == Err(TypeError)
    ensures a.typ == b.typ ==>
      var same := if a.typ == TypeI64 then a.num == b.num else a.str == b.str;
      var less := if a.typ == TypeI64 then a.num < b.num else Less(a.str, b.str);
      && Says(EvalBinOp(EQ, a, b), same)
      && Says(EvalBinOp(NE, a, b), !same)
      && Says(EvalBinOp(LT, a, b), less)
      && Says(EvalBinOp(LE, a, b), less || same)
      && Says(EvalBinOp(GT, a, b), !less && !same)
      && Says(EvalBinOp(GE, a, b), !less)
  {
    hide Less;
    LessIrreflexive(a.str);
  }

  /** The operator applied to two operands that have values. */
  lemma OperatorLaws(s: Schema, row: Row, l: Expr, r: Expr)
    requires |row| == |s.cols| && Eval(s, row, l).Ok? && Eval(s, row, r).Ok?
    ensures var a, b := Eval(s, row, l).value, Eval(s, row, r).value;
      forall op :: IsComparison(op) || op == ADD || op == SUB || op == MUL || op == DIV ==>
        Eval(s, row, Bin(op, l, r)) == EvalBinOp(op, a, b)
  {
    hide Eval, EvalBinOp;
    forall op | IsComparison(op) || op == ADD || op == SUB || op == MUL || op == DIV
      ensures Eval(s, row, Bin(op, l, r)) == EvalBinOp(op, Eval(s, row, l).value, Eval(s, row, r).value)
    {
      Applied(s, row, op, l, r);
    }
  }

  lemma ArithmeticLaws(s: Schema, row: Row, l: Expr, r: Expr)
    requires |row| == |s.cols| && Eval(s, row, l).Ok? && Eval(s, row, r).Ok?
    requires Eval(s, row, l).value.typ == TypeI64 && Eval(s, row, r).value.typ == TypeI64
    ensures var a, b := Eval(s, row, l).value.num, Eval(s, row, r).value.num;
      && IsModulo(Eval(s, row, Bin(ADD, l, r)), a + b)
      && IsModulo(Eval(s, row, Bin(SUB, l, r)), a - b)
      && IsModulo(Eval(s, row, Bin(MUL, l, r)), a * b)
      && (b == 0 ==> Eval(s, row, Bin(DIV, l, r)) == Err(DivisionByZero))
      && (b != 0 ==> exists q :: IsQuotient(a, b, q) && IsModulo(Eval(s, row, Bin(DIV, l, r)), q))
  {
    hide Eval, EvalBinOp, IsModulo, IsQuotient;
    OperatorLaws(s, row, l, r);
    ArithmeticOnCells(Eval(s, row, l).value, Eval(s, row, r).value);
  }

  lemma ComparisonLaws(s: Schema, row: Row, l: Expr, r: Expr)
    requires |row| == |s.cols| && Eval(s, row, l).Ok? && Eval(s, row, r).Ok?
    requires Eval(s, row, l).value.typ == Eval(s, row, r).value.typ
    ensures var a, b := Eval(s, row, l).value, Eval(s, row, r).value;
      var same := if a.typ == TypeI64 then a.num == b.num else a.str == b.str;
      var less := if a.typ == TypeI64 then a.num < b.num else Less(a.str, b.str);
      && Says(Eval(s, row, Bin(EQ, l, r)), same)
      && Says(Eval(s, row, Bin(NE, l, r)), !same)
      && Says(Eval(s, row, Bin(LT, l, r)), less)
      && Says(Eval(s, row, Bin(LE, l, r)), less || same)
      && Says(Eval(s, row, Bin(GT, l, r)), !less && !same)
      && Says(Eval(s, row, Bin(GE, l, r)), !less)
  {
    hide Eval, EvalBinOp, Says, Less;
    OperatorLaws(s, row, l, r);
    ComparisonOnCells(Eval(s, row, l).value, Eval(s, row, r).value);
  }

  /** Arithmetic takes integers only, and comparison takes two values of one type. */
  lemma TypeErrorLaws(s: Schema, row: Row, op: Op, l: Expr, r: Expr)
    requires |row| == |s.cols| && Eval(s, row, l).Ok? && Eval(s, row, r).Ok?
    ensures var a, b := Eval(s, row, l).value.typ, Eval(s, row, r).value.typ;
      && (op in {ADD, SUB, MUL, DIV} && !(a == TypeI64 && b == TypeI64) ==>
            Eval(s, row, Bin(op, l, r)) == Err(TypeError))
      && (op in {EQ, NE, LT, LE, GT, GE} && a != b ==> Eval(s, row, Bin(op, l, r)) == Err(TypeError))
  {
    hide Eval, EvalBinOp;
    OperatorLaws(s, row, l, r);
    ArithmeticOnCells(Eval(s, row, l).value, Eval(s, row, r).value);
    ComparisonOnCells(Eval(s, row, l).value, Eval(s, row, r).value);
  }

  /** Unary minus is the negative modulo 2^64, of integers only. */
  lemma NegationLaw(s: Schema, row: Row, e: Expr)
    requires |row| == |s.cols| && Eval(s, row, e).Ok?
    ensures var a, r := Eval(s, row, e).value, Eval(s, row, Un(NEG, e));
      if a.typ == TypeI64 then IsModulo(r, 0 - a.num) else r == Err(TypeError)
  {
    hide Wrap, IsModulo;
    WrapIsModulo(0 - Eval(s, row, e).value.num);
  }

  // ---- logic ----

  lemma LogicLaws(s: Schema, row: Row, l: Expr, r: Expr)
    requires |row| == |s.cols| && Eval(s, row, l).Ok? && Eval(s, row, r).Ok?
    ensures var a, b := IsTrue(Eval(s, row, l).value), IsTrue(Eval(s, row, r).value);
      Says(Eval(s, row, Bin(AND, l, r)), a && b) && Says(Eval(s, row, Bin(OR, l, r)), a || b)
  {
    hide ColIndex, Wrap, Quotient;
  }

  lemma NotLaw(s: Schema, row: Row, e: Expr)
    requires |row| == |s.cols| && Eval(s, row, e).Ok?
    ensures Says(Eval(s, row, Un(NOT, e)), !IsTrue(Eval(s, row, e).value))
  {
  }

  /** A condition is met by exactly the rows in which it is true. */
  lemma MetWhenTrue(s: Schema, row: Row, e: Expr)
    requires |row| == |s.cols|
    ensures EvalsTrue(s, row, e) <==> Eval(s, row, e).Ok? && IsTrue(Eval(s, row, e).value)
  {
  }

  /** An operator in the wrong place, and a unary one on a failing operand, fail. */
  lemma MisplacedOperators(s: Schema, row: Row, op: Op, l: Expr, r: Expr)
    requires |row| == |s.cols|
    ensures Eval(s, row, l).Err? ==> Eval(s, row, Un(op, l)) == Eval(s, row, l)
    ensures op != NOT && op != NEG ==> Eval(s, row, Un(op, l)).Err?
    ensures op == NOT || op == NEG ==> Eval(s, row, Bin(op, l, r)).Err?
  {
  }
}
