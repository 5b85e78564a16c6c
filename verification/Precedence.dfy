/** How texts with several operators are grouped, and which texts are tokens at all,
    told on the characters. */
module Precedence {
  import opened Bytes
  import opened Expressions
  import opened Tokens
  import opened Grammar
  import opened Printer

  function Ascii(s: string): (r: Bytes)
    requires forall i :: 0 <= i < |s| ==> s[i] as int < 256
    ensures |r| == |s| && forall i :: 0 <= i < |r| ==> r[i] == s[i] as int
  {
    seq(|s|, i requires 0 <= i < |s| => s[i] as int)
  }

  function Symbol(op: Op): string {
    match op
    case OR => "OR"
    case AND => "AND"
    case NOT => "NOT"
    case EQ => "="
    case NE => "<>"
    case LE => "<="
    case GE => ">="
    case LT => "<"
    case GT => ">"
    case ADD => "+"
    case SUB | NEG => "-"
    case MUL => "*"
    case DIV => "/"
  }

  /** OR binds weakest, then AND, NOT, the comparisons, the sums, the products, and
      the unary minus. */
  function Strength(op: Op): nat {
    match op
    case OR => 1
    case AND => 2
    case NOT => 3
    case EQ | NE | LE | GE | LT | GT => 4
    case ADD | SUB => 5
    case MUL | DIV => 6
    case NEG => 7
  }

  predicate IsSymbol(op: Op) {
    forall i :: 0 <= i < |Symbol(op)| ==> Symbol(op)[i] as int < 256
  }

  lemma SymbolIsText(op: Op)
    ensures IsSymbol(op) && Ascii(Symbol(op)) == OpText(op)
  {
  }

  lemma StrengthIsLevel(p: Op, q: Op)
    ensures Strength(p) < Strength(q) <==> OpLevel(p) < OpLevel(q)
  {
  }

  /** An operator between blanks. */
  function Infix(op: Op): Bytes {
    SymbolIsText(op);
    [32] + Ascii(Symbol(op)) + [32]
  }

  function Prefix(op: Op): Bytes {
    SymbolIsText(op);
    Ascii(Symbol(op)) + [32]
  }

  predicate IsOperand(name: Bytes) {
    Printable(Col(name))
  }

  lemma PrintedOperand(name: Bytes, level: nat)
    requires IsOperand(name) && level <= ATOM_LEVEL
    ensures Print(Col(name), level) == name
  {
  }

  lemma PrintedPair(op: Op, l: Expr, r: Expr, level: nat)
    requires IsBinary(op) && Printable(l) && Printable(r) && level <= OpLevel(op)
    ensures Printable(Bin(op, l, r))
    ensures Print(Bin(op, l, r), level) == Print(l, OpLevel(op)) + Infix(op) + Print(r, OpLevel(op) + 1)
  {
    SymbolIsText(op);
    hide Symbol, IsSymbol, OpText, Ascii;
    var e := Bin(op, l, r);
    assert Body(e) == Print(l, OpLevel(op)) + ([32] + OpText(op) + [32] + Print(r, OpLevel(op) + 1));
  }

  lemma PrintedUnary(op: Op, kid: Expr, level: nat)
    requires !IsBinary(op) && Printable(kid) && level <= OpLevel(op)
    ensures Printable(Un(op, kid)) && Print(Un(op, kid), level) == Prefix(op) + Print(kid, OpLevel(op))
  {
    SymbolIsText(op);
    hide Symbol, IsSymbol, OpText, Ascii;
    assert Body(Un(op, kid)) == OpText(op) + [32] + Print(kid, OpLevel(op));
  }

  /** Of two operators in a row the stronger one takes the operand between them; of two
      equally strong ones the left. */
  lemma TwoOperators(p: Op, q: Op, a: Bytes, b: Bytes, c: Bytes)
    requires IsBinary(p) && IsBinary(q) && IsOperand(a) && IsOperand(b) && IsOperand(c)
    ensures ParseLevel(OR_LEVEL, a + Infix(p) + b + Infix(q) + c) ==
      Some((if Strength(p) < Strength(q) then Bin(p, Col(a), Bin(q, Col(b), Col(c)))
            else Bin(q, Bin(p, Col(a), Col(b)), Col(c)), []))
  {
    hide ParseLevel, Print, Printable, Infix, Strength, IsOperand, OpLevel;
    Operands(a, b, c);
    StrengthIsLevel(p, q);
    if Strength(p) < Strength(q) {
      PrintedPair(q, Col(b), Col(c), OpLevel(p) + 1);
      PrintedPair(p, Col(a), Bin(q, Col(b), Col(c)), OR_LEVEL);
      assert a + Infix(p) + (b + Infix(q) + c) == a + Infix(p) + b + Infix(q) + c;
      ParsePrint(Bin(p, Col(a), Bin(q, Col(b), Col(c))));
    } else {
      PrintedPair(p, Col(a), Col(b), OpLevel(q));
      PrintedPair(q, Bin(p, Col(a), Col(b)), Col(c), OR_LEVEL);
      ParsePrint(Bin(q, Bin(p, Col(a), Col(b)), Col(c)));
    }
  }

  lemma Operands(a: Bytes, b: Bytes, c: Bytes)
    requires IsOperand(a) && IsOperand(b) && IsOperand(c)
    ensures Printable(Col(a)) && Printable(Col(b)) && Printable(Col(c))
    ensures forall level :: 0 <= level <= ATOM_LEVEL ==>
      Print(Col(a), level) == a && Print(Col(b), level) == b && Print(Col(c), level) == c
  {
    forall level: nat | level <= ATOM_LEVEL
      ensures Print(Col(a), level) == a && Print(Col(b), level) == b && Print(Col(c), level) == c
    {
      PrintedOperand(a, level);
      PrintedOperand(b, level);
      PrintedOperand(c, level);
    }
  }

  /** A prefix operator reaches over every stronger operator that follows. */
  lemma PrefixThenInfix(p: Op, q: Op, a: Bytes, b: Bytes)
    requires !IsBinary(p) && IsBinary(q) && IsOperand(a) && IsOperand(b)
    ensures ParseLevel(OR_LEVEL, Prefix(p) + (a + Infix(q) + b)) ==
      Some((if Strength(p) < Strength(q) then Un(p, Bin(q, Col(a), Col(b))) else Bin(q, Un(p, Col(a)), Col(b)), []))
  {
    hide ParseLevel, Print, Printable, Infix, Prefix, Strength, IsOperand, OpLevel;
    Operands(a, b, b);
    StrengthIsLevel(p, q);
    if Strength(p) < Strength(q) {
      PrintedPair(q, Col(a), Col(b), OpLevel(p));
      PrintedUnary(p, Bin(q, Col(a), Col(b)), OR_LEVEL);
      ParsePrint(Un(p, Bin(q, Col(a), Col(b))));
    } else {
      PrintedUnary(p, Col(a), OpLevel(q));
      PrintedPair(q, Un(p, Col(a)), Col(b), OR_LEVEL);
      assert Prefix(p) + a + Infix(q) + b == Prefix(p) + (a + Infix(q) + b);
      ParsePrint(Bin(q, Un(p, Col(a)), Col(b)));
    }
  }

  // ---- tokens without blanks ----

  /** Signs need no blanks around them; `<` and `>` only must not run on into a longer
      sign. */
  lemma SignReads(op: Op, s: Bytes, more: Bytes)
    requires IsBinary(op) && op != AND && op != OR && SkipSpaces(s) == OpText(op) + more
    requires op == LT ==> more == [] || (more[0] != 61 && more[0] != 62)
    requires op == GT ==> more == [] || more[0] != 61
    ensures TryTokens(Table(OpLevel(op)), s) == (Some(op), more)
  {
    DropPrefix(OpText(op), more);
    var k := SignIsFirst(op, more);
    hide SkipSpaces, TryTokens, OpText, Misses;
    FirstPunctuation(Table(OpLevel(op)), s, k);
  }

  lemma SignIsFirst(op: Op, more: Bytes) returns (k: nat)
    requires IsBinary(op) && op != AND && op != OR
    requires op == LT ==> more == [] || (more[0] != 61 && more[0] != 62)
    requires op == GT ==> more == [] || more[0] != 61
    ensures var ts := Table(OpLevel(op));
      AllPunctuation(ts) && k < |ts| && ts[k] == Punctuation(OpText(op), op) && Misses(ts[..k], OpText(op) + more)
  {
    if OpLevel(op) == CMP_LEVEL {
      k := CmpIndex(op);
      ComparisonIsFirst(op, more);
    } else {
      k := if op == ADD || op == MUL then 0 else 1;
      assert (OpText(op) + more)[0] == OpText(op)[0];
    }
  }

  lemma ComparisonIsFirst(op: Op, more: Bytes)
    requires IsBinary(op) && OpLevel(op) == CMP_LEVEL
    requires op == LT ==> more == [] || (more[0] != 61 && more[0] != 62)
    requires op == GT ==> more == [] || more[0] != 61
    ensures Misses(Table(CMP_LEVEL)[..CmpIndex(op)], OpText(op) + more)
  {
    var t, ts := OpText(op) + more, Table(CMP_LEVEL);
    assert t[0] == OpText(op)[0] && (|t| >= 2 ==> t[1] == if |OpText(op)| == 2 then OpText(op)[1] else more[0]);
    forall i | 0 <= i < CmpIndex(op) ensures !(ts[i].text <= t) {
      if |t| >= 2 { Mismatch(ts[i].text, t); } else { assert ts[i].text[0] != t[0] || |ts[i].text| == 2; }
    }
  }

  /** Keywords are read in either case of every letter, and in no other form. */
  lemma FoldsExactlyWhen(text: Bytes, kw: Bytes)
    requires forall i :: 0 <= i < |kw| ==> 65 <= kw[i] <= 90
    ensures EqualFold(text, kw) <==>
      |text| == |kw| && forall i :: 0 <= i < |kw| ==> text[i] == kw[i] || text[i] == kw[i] + 32
  {
  }

  /** In a string a backslash must stand before a quote of either kind or a backslash. */
  lemma EscapesExactlyWhen(quote: byte, ch: byte, rest: Bytes)
    requires (quote == 34 || quote == 39) && Unquote(quote, rest).Some?
    ensures var tail := Unquote(quote, rest).value;
      Unquote(quote, [92, ch] + rest) ==
        if ch == 34 || ch == 39 || ch == 92 then Some(([ch] + tail.0, tail.1)) else None
  {
    var text := [92, ch] + rest;
    assert text[0] == 92 && text[1] == ch && text[2..] == rest;
  }

  function Tens(n: nat): nat {
    if n == 0 then 1 else 10 * Tens(n - 1)
  }

  /** Digits are decimal, the first one the most significant. */
  lemma {:induction false} FirstDigit(d: byte, ds: Bytes)
    requires 48 <= d <= 57 && forall i :: 0 <= i < |ds| ==> IsDigit(ds[i])
    ensures forall i :: 0 <= i < |[d] + ds| ==> IsDigit(([d] + ds)[i])
    ensures DigitsValue([d] + ds) == (d - 48) * Tens(|ds|) + DigitsValue(ds)
    decreases |ds|
  {
    var all := [d] + ds;
    if ds == [] {
      assert all[..0] == [];
    } else {
      var n := |ds| - 1;
      FirstDigit(d, ds[..n]);
      assert all[..|all| - 1] == [d] + ds[..n] && all[|all| - 1] == ds[n];
      Scaled(d - 48, Tens(n));
    }
  }

  lemma Scaled(a: int, b: int)
    ensures 10 * (a * b) == a * (10 * b)
  {
  }
}
