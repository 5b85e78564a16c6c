/** The printer writes no parenthesis too many: where it encloses an expression, the
    bare text would not be read back as that expression, whatever follows it. */
module Parentheses {
  import opened Bytes
  import opened Expressions
  import opened Tokens
  import opened Grammar
  import opened Printer

  /** The number of operators outside tuples. */
  function Weight(e: Expr): nat {
    match e
    case Bin(_, l, r) => 1 + Weight(l) + Weight(r)
    case Un(_, kid) => 1 + Weight(kid)
    case _ => 0
  }

  /** What has been read is lighter than `e`, or no printed tree at all. */
  predicate Falls(e: Expr, p: Option<(Expr, Bytes)>) {
    p.Some? ==> !Printable(p.value.0) || Weight(p.value.0) < Weight(e)
  }

  // ---- a NOT where none is expected is read as a name ----

  lemma {:induction false} MoreStaysUnprintable(level: nat, left: Expr, s: Bytes)
    requires level < ATOM_LEVEL && !Printable(left)
    ensures var p := ParseMore(level, left, s); p.Some? ==> !Printable(p.value.0)
    decreases |s|
  {
    hide TryTokens, ParseLevel, Table;
    var t := TryTokens(Table(level), s);
    if t.0.Some? {
      var p := ParseLevel(level + 1, t.1);
      if p.Some? { MoreStaysUnprintable(level, Bin(t.0.value, left, p.value.0), p.value.1); }
    }
  }

  lemma NotIsAName(more: Bytes)
    ensures ParseAtom(KW_NOT + ([32] + more)) == Some((Col(KW_NOT), [32] + more))
    ensures TryPunctuation(KW_NOT + ([32] + more), [45]) == (false, KW_NOT + ([32] + more))
    ensures !Printable(Col(KW_NOT))
  {
    hide ParseLevel, ParseList, ParseValue, NameLength;
    var text := KW_NOT + ([32] + more);
    NameLengthStops(KW_NOT, [32] + more);
    assert text[0] == 78 && SkipSpaces(text) == text;
    assert text[..3] == KW_NOT && text[3..] == [32] + more;
  }

  lemma {:induction false} NotIsMisread(level: nat, more: Bytes)
    requires CMP_LEVEL <= level <= ATOM_LEVEL
    ensures var p := ParseLevel(level, KW_NOT + ([32] + more)); p.Some? ==> !Printable(p.value.0)
    decreases ATOM_LEVEL - level
  {
    hide ParseAtom, ParseMore, TryPunctuation, Printable;
    var text := KW_NOT + ([32] + more);
    NotIsAName(more);
    if level < ATOM_LEVEL {
      NotIsMisread(level + 1, more);
      if level != NEG_LEVEL {
        var p := ParseLevel(level + 1, text);
        if p.Some? { MoreStaysUnprintable(level, p.value.0, p.value.1); }
      }
    }
  }

  // ---- a minus is not the start of an atom ----

  lemma MinusIsNoAtom(more: Bytes)
    ensures ParseAtom([45] + ([32] + more)).None?
  {
    hide ParseLevel, ParseList, NameLength, DigitsValue;
    var text := [45] + ([32] + more);
    assert text[0] == 45 && text[1..] == [32] + more && SkipSpaces(text) == text;
    assert DigitCount([32] + more) == 0;
  }

  // ---- operands ----

  lemma StopsFrom(a: nat, b: nat, rest: Bytes)
    requires a <= b && Stops(a, rest)
    ensures Stops(b, rest)
  {
    hide TryTokens;
  }

  lemma SameForm(e: Expr, a: nat, b: nat)
    requires Printable(e) && (LevelOf(e) < a <==> LevelOf(e) < b)
    ensures Print(e, a) == Print(e, b)
  {
    hide Body;
  }

  lemma BareForm(e: Expr, rest: Bytes)
    requires Printable(e) && e.Un?
    ensures Printable(e.kid)
    ensures Body(e) + rest == OpText(e.uop) + ([32] + (Print(e.kid, OpLevel(e.uop)) + rest))
  {
    hide Print;
  }

  /** Read at a tighter level than its own, the bare text of an expression yields less
      than the expression. */
  lemma {:induction false} BareFalls(e: Expr, level: nat, rest: Bytes)
    requires Printable(e) && LevelOf(e) < level <= ATOM_LEVEL
    ensures Falls(e, ParseLevel(level, Body(e) + rest))
    decreases e
  {
    hide Print, Body, ParseLevel, Stops, Printable, Spaced;
    if e.Bin? {
      var lv := LevelOf(e);
      PrintForm(e, lv);
      PrintedBinary(e, lv, rest);
      var more := Print(e.right, lv + 1) + rest;
      PrintForm(e.left, lv);
      if lv <= LevelOf(e.left) < level {
        BareFalls(e.left, level, Spaced(e.op, more));
      } else {
        IsBinaryOp(e);
        OpStops(e.op, more);
        StopsFrom(lv + 1, level, Spaced(e.op, more));
        SameForm(e.left, lv, level);
        ReadsBack(e.left, level, Spaced(e.op, more));
      }
    } else {
      UnaryFalls(e, level, rest);
    }
  }

  lemma IsBinaryOp(e: Expr)
    requires Printable(e) && e.Bin?
    ensures IsBinary(e.op)
  {
  }

  lemma UnaryFalls(e: Expr, level: nat, rest: Bytes)
    requires Printable(e) && !e.Bin? && LevelOf(e) < level <= ATOM_LEVEL
    ensures Falls(e, ParseLevel(level, Body(e) + rest))
  {
    UnaryOp(e, level);
    BareForm(e, rest);
    hide Print, Body, ParseAtom, Printable;
    var more := Print(e.kid, OpLevel(e.uop)) + rest;
    if e.uop == NOT {
      NotIsMisread(level, more);
    } else {
      MinusIsNoAtom(more);
    }
  }

  lemma UnaryOp(e: Expr, level: nat)
    requires Printable(e) && !e.Bin? && LevelOf(e) < level <= ATOM_LEVEL
    ensures e.Un? && (e.uop == NOT || (e.uop == NEG && level == ATOM_LEVEL))
  {
  }

  /** Where the printer encloses an expression, leaving the parentheses out gives a text
      that is not read back as it. */
  lemma ParenthesesAreNeeded(e: Expr, level: nat, rest: Bytes)
    requires Printable(e) && level <= ATOM_LEVEL && Print(e, level) != Body(e)
    ensures forall left :: ParseLevel(level, Body(e) + rest) != Some((e, left))
  {
    PrintForm(e, level);
    hide ParseLevel, Body, Print, Printable;
    BareFalls(e, level, rest);
  }
}
