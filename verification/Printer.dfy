/** Printing expressions with as few parentheses as the grammar allows, and the
    proof that parsing undoes it. */
module Printer {
  import opened Bytes
  import opened KeyCodec
  import opened Expressions
  import opened Tokens
  import opened Grammar

  // ---- the printer ----

  predicate IsBinary(op: Op) {
    op != NOT && op != NEG
  }

  function OpLevel(op: Op): (l: nat)
    ensures l < ATOM_LEVEL
  {
    match op
    case OR => OR_LEVEL
    case AND => AND_LEVEL
    case NOT => NOT_LEVEL
    case ADD | SUB => ADD_LEVEL
    case MUL | DIV => MUL_LEVEL
    case NEG => NEG_LEVEL
    case _ => CMP_LEVEL
  }

  function OpText(op: Op): Bytes {
    match op
    case OR => KW_OR
    case AND => KW_AND
    case NOT => KW_NOT
    case ADD => [43]
    case SUB | NEG => [45]
    case MUL => [42]
    case DIV => [47]
    case EQ => [61]
    case NE => [60, 62]
    case LE => [60, 61]
    case GE => [62, 61]
    case LT => [60]
    case GT => [62]
  }

  function LevelOf(e: Expr): (l: nat)
    ensures l <= ATOM_LEVEL
  {
    match e
    case Bin(op, _, _) => OpLevel(op)
    case Un(op, _) => OpLevel(op)
    case _ => ATOM_LEVEL
  }

  function Digits(n: nat): (r: Bytes)
    ensures r != [] && forall i :: 0 <= i < |r| ==> IsDigit(r[i])
  {
    if n < 10 then [48 + n] else Digits(n / 10) + [48 + n % 10]
  }

  function Quoted(str: Bytes): Bytes {
    if str == [] then []
    else (if IsEscapable(str[0]) then [92, str[0]] else [str[0]]) + Quoted(str[1..])
  }

  predicate IsIdentifier(name: Bytes) {
    name != [] && IsNameStart(name[0]) && forall i :: 0 <= i < |name| ==> IsNameContinue(name[i])
  }

  /** Non-negative integers, arbitrary strings, names other than NOT, tuples of at
      least two members, and operators where the grammar has them. */
  predicate Printable(e: Expr) {
    match e
    case Col(name) => IsIdentifier(name) && !EqualFold(name, KW_NOT)
    case Const(c) => if c.typ.TypeI64? then c.num >= 0 && c.str == [] else c.num == 0
    case Bin(op, l, r) => IsBinary(op) && Printable(l) && Printable(r)
    case Un(op, kid) => !IsBinary(op) && Printable(kid)
    case Tuple(kids) => |kids| >= 2 && forall k :: k in kids ==> Printable(k)
  }

  /** The text of an expression where one of at least the given level is expected. */
  function Print(e: Expr, level: nat): Bytes
    requires Printable(e)
    decreases e, 1
  {
    if LevelOf(e) < level then [40] + Body(e) + [41] else Body(e)
  }

  function Body(e: Expr): Bytes
    requires Printable(e)
    decreases e, 0
  {
    match e
    case Col(name) => name
    case Const(c) => if c.typ.TypeI64? then Digits(c.num) else [39] + Quoted(c.str) + [39]
    case Bin(op, l, r) => Print(l, OpLevel(op)) + ([32] + OpText(op) + [32] + Print(r, OpLevel(op) + 1))
    case Un(op, kid) => OpText(op) + [32] + Print(kid, OpLevel(op))
    case Tuple(kids) => [40] + PrintList(kids) + [41]
  }

  function PrintList(es: seq<Expr>): Bytes
    requires es != [] && forall e :: e in es ==> Printable(e)
    decreases es, 0
  {
    if |es| == 1 then Print(es[0], OR_LEVEL) else Print(es[0], OR_LEVEL) + [44, 32] + PrintList(es[1..])
  }

  // ---- literals read back ----

  lemma {:induction false} DigitsReadBack(n: nat)
    ensures DigitsValue(Digits(n)) == n
  {
    if n < 10 {
      assert Digits(n)[..0] == [];
    } else {
      DigitsReadBack(n / 10);
      assert Digits(n)[..|Digits(n)| - 1] == Digits(n / 10);
    }
  }

  /** What may follow a name or a number. */
  predicate Separated(rest: Bytes) {
    rest == [] || !IsNameContinue(rest[0])
  }

  lemma {:induction false} DigitCountStops(ds: Bytes, rest: Bytes)
    requires (forall i :: 0 <= i < |ds| ==> IsDigit(ds[i])) && Separated(rest)
    ensures DigitCount(ds + rest) == |ds|
  {
    var text := ds + rest;
    if ds == [] {
      assert text == rest;
    } else {
      assert text[0] == ds[0] && text[1..] == ds[1..] + rest;
      DigitCountStops(ds[1..], rest);
    }
  }

  lemma {:induction false} NameLengthStops(name: Bytes, rest: Bytes)
    requires (forall i :: 0 <= i < |name| ==> IsNameContinue(name[i])) && Separated(rest)
    ensures NameLength(name + rest) == |name|
  {
    var text := name + rest;
    if name == [] {
      assert text == rest;
    } else {
      assert text[0] == name[0] && text[1..] == name[1..] + rest;
      NameLengthStops(name[1..], rest);
    }
  }

  /** With both kinds of quotes and backslashes escaped, either quote may enclose. */
  lemma {:induction false} UnquoteQuoted(quote: byte, str: Bytes, rest: Bytes)
    requires quote == 39 || quote == 34
    ensures Unquote(quote, Quoted(str) + [quote] + rest) == Some((str, rest))
  {
    var text := Quoted(str) + [quote] + rest;
    if str == [] {
      assert text == [quote] + rest;
    } else {
      UnquoteQuoted(quote, str[1..], rest);
      var more := Quoted(str[1..]) + [quote] + rest;
      assert str == [str[0]] + str[1..];
      if IsEscapable(str[0]) {
        assert text == [92, str[0]] + more;
        assert text[2..] == more;
      } else {
        assert text == [str[0]] + more;
        assert text[1..] == more;
      }
    }
  }

  lemma NumberReadsBack(n: nat, rest: Bytes)
    requires n <= MAX_INT && Separated(rest)
    ensures ParseInt(Digits(n) + rest) == Some((n, rest))
    ensures IsDigit((Digits(n) + rest)[0])
  {
    hide Digits, DigitsValue;
    var ds := Digits(n);
    var text := ds + rest;
    DigitsReadBack(n);
    DigitCountStops(ds, rest);
    assert text[0] == ds[0] && IsDigit(ds[0]);
    assert text[..|ds|] == ds && text[|ds|..] == rest;
  }

  /** An explicit sign is part of a literal; exactly the 64-bit numbers are read. */
  lemma SignedNumberReadsBack(v: int, rest: Bytes)
    requires Separated(rest)
    ensures var magnitude := if v < 0 then -v else v;
      ParseInt([if v < 0 then 45 else 43] + (Digits(magnitude) + rest)) ==
        if -0x8000_0000_0000_0000 <= v < 0x8000_0000_0000_0000 then Some((v, rest)) else None
  {
    hide Digits, DigitsValue;
    var n := if v < 0 then -v else v;
    var ds := Digits(n);
    var body := ds + rest;
    var text := [if v < 0 then 45 else 43] + body;
    DigitsReadBack(n);
    DigitCountStops(ds, rest);
    assert text[1..] == body && body[..|ds|] == ds && body[|ds|..] == rest;
  }

  lemma LiteralStart(ch: byte)
    ensures IsDigit(ch) || ch == 39 ==> !IsNameStart(ch) && !IsSpace(ch) && ch != 40
  {
  }

  /** Nothing but a literal can start with a digit or a quote. */
  lemma AtomIsValue(text: Bytes)
    requires text != [] && (IsDigit(text[0]) || text[0] == 39)
    ensures ParseAtom(text) == ParseValue(text) && SkipSpaces(text) == text
  {
    LiteralStart(text[0]);
    hide ParseLevel, ParseList, ParseValue, NameLength, IsNameStart, IsSpace, IsDigit;
  }

  lemma NumberValue(n: nat, rest: Bytes)
    requires n <= MAX_INT && Separated(rest)
    ensures ParseValue(Digits(n) + rest) == Some((Const(Cell(TypeI64, n, [])), rest))
    ensures ParseAtom(Digits(n) + rest) == ParseValue(Digits(n) + rest)
  {
    hide ParseAtom, ParseInt, Digits, Unquote, DigitCount, DigitsValue;
    NumberReadsBack(n, rest);
    AtomIsValue(Digits(n) + rest);
  }

  lemma StringValue(str: Bytes, rest: Bytes)
    ensures var text := [39] + Quoted(str) + [39] + rest;
      ParseValue(text) == Some((Const(Cell(TypeStr, 0, str)), rest)) && ParseAtom(text) == ParseValue(text)
  {
    hide ParseAtom, ParseInt, Unquote, Quoted;
    var text := [39] + Quoted(str) + [39] + rest;
    UnquoteQuoted(39, str, rest);
    assert text[1..] == Quoted(str) + [39] + rest;
    AtomIsValue(text);
  }

  lemma ConstReadsBack(c: Cell, rest: Bytes)
    requires Printable(Const(c)) && Separated(rest)
    ensures ParseAtom(Body(Const(c)) + rest) == Some((Const(c), rest))
  {
    hide ParseAtom, ParseValue, Digits, Quoted;
    if c.typ.TypeI64? {
      NumberValue(c.num, rest);
    } else {
      StringValue(c.str, rest);
    }
  }

  lemma NameReadsBack(name: Bytes, rest: Bytes)
    requires Printable(Col(name)) && Separated(rest)
    ensures ParseAtom(name + rest) == Some((Col(name), rest))
  {
    hide ParseLevel, ParseList, NameLength, ParseValue, EqualFold;
    var text := name + rest;
    NameLengthStops(name, rest);
    assert text[0] == name[0];
    assert SkipSpaces(text) == text;
    assert text[..|name|] == name && text[|name|..] == rest;
  }

  // ---- operators read back ----

  predicate AllPunctuation(ts: seq<Token>) {
    forall i :: 0 <= i < |ts| ==> ts[i].Punctuation? && ts[i].text != []
  }

  /** None of the tokens starts the text. */
  predicate Misses(ts: seq<Token>, t: Bytes) {
    forall i :: 0 <= i < |ts| ==> !(ts[i].text <= t)
  }

  lemma {:induction false} NoPunctuation(ts: seq<Token>, s: Bytes)
    requires AllPunctuation(ts) && ts != [] && Misses(ts, SkipSpaces(s))
    ensures TryTokens(ts, s) == (None, SkipSpaces(s))
  {
    hide SkipSpaces;
    SkipIdempotent(s);
    if |ts| > 1 { NoPunctuation(ts[1..], SkipSpaces(s)); }
  }

  lemma {:induction false} FirstPunctuation(ts: seq<Token>, s: Bytes, k: nat)
    requires AllPunctuation(ts) && k < |ts| && Misses(ts[..k], SkipSpaces(s)) && ts[k].text <= SkipSpaces(s)
    ensures TryTokens(ts, s) == (Some(ts[k].op), SkipSpaces(s)[|ts[k].text|..])
  {
    hide SkipSpaces;
    SkipIdempotent(s);
    if k > 0 {
      assert ts[..k][0] == ts[0];
      assert ts[1..][..k - 1] == ts[..k][1..];
      FirstPunctuation(ts[1..], SkipSpaces(s), k - 1);
    }
  }

  /** An operator with a space on either side, and what comes after it. */
  function Spaced(op: Op, more: Bytes): Bytes {
    [32] + OpText(op) + [32] + more
  }

  lemma SpacedSkips(op: Op, more: Bytes)
    ensures SkipSpaces(Spaced(op, more)) == OpText(op) + [32] + more
    ensures Spaced(op, more)[0] == 32
  {
    var t := OpText(op) + [32] + more;
    assert Spaced(op, more) == [32] + t;
    assert ([32] + t)[1..] == t;
  }

  /** The place of a comparison operator in the table of its level. */
  function CmpIndex(op: Op): (k: nat)
    requires IsBinary(op) && OpLevel(op) == CMP_LEVEL
    ensures k < |Table(CMP_LEVEL)| && Table(CMP_LEVEL)[k] == Punctuation(OpText(op), op)
  {
    if op == LE then 0
    else if op == GE then 1
    else if op == NE then 2
    else if op == EQ then 4
    else if op == LT then 5
    else 6
  }

  lemma DropPrefix(p: Bytes, s: Bytes)
    ensures p <= p + s && (p + s)[|p|..] == s
  {
  }

  lemma EarlierMiss(op: Op, t: Bytes)
    requires IsBinary(op) && OpLevel(op) == CMP_LEVEL && |t| >= 2
    requires t[0] == OpText(op)[0] && t[1] == if |OpText(op)| == 2 then OpText(op)[1] else 32
    ensures Misses(Table(CMP_LEVEL)[..CmpIndex(op)], t)
  {
    var ts, k := Table(CMP_LEVEL), CmpIndex(op);
    forall i | 0 <= i < k ensures !(ts[i].text <= t) {
      Mismatch(ts[i].text, t);
    }
  }

  lemma Mismatch(p: Bytes, t: Bytes)
    requires 1 <= |p| <= 2 <= |t| && (p[0] != t[0] || (|p| == 2 && p[1] != t[1]))
    ensures !(p <= t)
  {
  }

  lemma CmpReads(op: Op, more: Bytes)
    requires IsBinary(op) && OpLevel(op) == CMP_LEVEL
    ensures TryTokens(Table(CMP_LEVEL), Spaced(op, more)) == (Some(op), [32] + more)
  {
    hide SkipSpaces, TryTokens, Spaced;
    var t, ts, k := OpText(op) + [32] + more, Table(CMP_LEVEL), CmpIndex(op);
    SpacedSkips(op, more);
    assert t[0] == OpText(op)[0] && t[1] == (OpText(op) + [32])[1];
    EarlierMiss(op, t);
    DropPrefix(OpText(op), [32] + more);
    assert t == OpText(op) + ([32] + more);
    FirstPunctuation(ts, Spaced(op, more), k);
  }

  lemma ArithmeticReads(op: Op, more: Bytes)
    requires op == ADD || op == SUB || op == MUL || op == DIV
    ensures TryTokens(Table(OpLevel(op)), Spaced(op, more)) == (Some(op), [32] + more)
  {
    hide SkipSpaces, TryTokens, Spaced;
    var t, ts := OpText(op) + [32] + more, Table(OpLevel(op));
    SpacedSkips(op, more);
    assert t[0] == OpText(op)[0] && t[1..] == [32] + more;
    if ts[0].op == op {
      FirstPunctuation(ts, Spaced(op, more), 0);
    } else {
      assert ts[0].text[0] != t[0];
      FirstPunctuation(ts, Spaced(op, more), 1);
    }
  }

  /** A keyword is read in whatever case it is written, and exactly where no longer
      name begins with it. */
  lemma KeywordReads(text: Bytes, kw: Bytes, s: Bytes, more: Bytes)
    requires SkipSpaces(s) == text + more && EqualFold(text, kw)
    ensures TryKeyword(s, kw) == if Separated(more) then Some(more) else None
  {
    hide SkipSpaces, EqualFold;
    var t := SkipSpaces(s);
    assert |text| == |kw| by { SameLength(text, kw); }
    assert t[..|kw|] == text && t[|kw|..] == more;
    assert more != [] ==> t[|kw|] == more[0];
  }

  lemma SameLength(text: Bytes, kw: Bytes)
    requires EqualFold(text, kw)
    ensures |text| == |kw|
  {
  }

  /** `!=` is another way to write `<>`. */
  lemma BangEqualReads(more: Bytes)
    ensures TryTokens(Table(CMP_LEVEL), [33, 61] + more) == (Some(NE), more)
  {
    hide SkipSpaces, TryTokens;
    var t, ts := [33, 61] + more, Table(CMP_LEVEL);
    BangIsNoSpace(more);
    forall i | 0 <= i < 3 ensures !(ts[i].text <= t) { Mismatch(ts[i].text, t); }
    assert ts[3].text == [33, 61];
    DropPrefix([33, 61], more);
    FirstPunctuation(ts, t, 3);
  }

  lemma BangIsNoSpace(more: Bytes)
    ensures SkipSpaces([33, 61] + more) == [33, 61] + more
  {
  }

  /** A printed operator is read at its own level ... */
  lemma OpReads(op: Op, more: Bytes)
    requires IsBinary(op)
    ensures TryTokens(Table(OpLevel(op)), Spaced(op, more)) == (Some(op), [32] + more)
  {
    hide SkipSpaces, TryKeyword, Spaced;
    if OpLevel(op) == CMP_LEVEL {
      CmpReads(op, more);
    } else if op == AND || op == OR {
      SpacedSkips(op, more);
      assert OpText(op) + [32] + more == OpText(op) + ([32] + more);
      KeywordReads(OpText(op), OpText(op), Spaced(op, more), [32] + more);
    } else {
      ArithmeticReads(op, more);
    }
  }

  /** No operator of this level or a tighter one starts the text. */
  predicate Stops(level: nat, rest: Bytes) {
    forall l :: level <= l < ATOM_LEVEL ==> TryTokens(Table(l), rest).0.None?
  }

  /** ... and ends an operand of any tighter level. */
  lemma OpStops(op: Op, more: Bytes)
    requires IsBinary(op)
    ensures Stops(OpLevel(op) + 1, Spaced(op, more)) && Separated(Spaced(op, more))
  {
    SpacedSkips(op, more);
    hide SkipSpaces, TryTokens, Spaced;
    var t := OpText(op) + [32] + more;
    assert t[0] == OpText(op)[0];
    forall l | OpLevel(op) + 1 <= l < ATOM_LEVEL ensures TryTokens(Table(l), Spaced(op, more)).0.None? {
      StopsAt(l, Spaced(op, more), t);
    }
  }

  lemma StopsAt(l: nat, s: Bytes, t: Bytes)
    requires SkipSpaces(s) == t && t != []
    requires l == AND_LEVEL ==> t[0] == 79
    requires l == CMP_LEVEL ==> t[0] == 79 || t[0] == 65
    requires l == ADD_LEVEL || l == MUL_LEVEL ==> t[0] != 42 && t[0] != 47
    requires l == ADD_LEVEL ==> t[0] != 43 && t[0] != 45
    requires l != OR_LEVEL
    ensures TryTokens(Table(l), s).0.None?
  {
    hide SkipSpaces;
    if l == AND_LEVEL {
      assert TryKeyword(s, KW_AND).None?;
    } else if l == CMP_LEVEL || l == ADD_LEVEL || l == MUL_LEVEL {
      forall i | 0 <= i < |Table(l)| ensures !(Table(l)[i].text <= t) {
        assert Table(l)[i].text[0] != t[0];
      }
      NoPunctuation(Table(l), s);
    }
  }

  /** A comma or a closing parenthesis ends any operand. */
  lemma DelimiterStops(ch: byte, rest: Bytes)
    requires ch == 41 || ch == 44
    ensures Stops(OR_LEVEL, [ch] + rest) && Separated([ch] + rest) && SkipSpaces([ch] + rest) == [ch] + rest
  {
    hide TryTokens;
    var t := [ch] + rest;
    assert SkipSpaces(t) == t;
    hide SkipSpaces;
    forall l | OR_LEVEL <= l < ATOM_LEVEL ensures TryTokens(Table(l), t).0.None? {
      DelimiterStopsAt(l, t);
    }
  }

  lemma DelimiterStopsAt(l: nat, t: Bytes)
    requires l < ATOM_LEVEL && t != [] && (t[0] == 41 || t[0] == 44) && SkipSpaces(t) == t
    ensures TryTokens(Table(l), t).0.None?
  {
    hide SkipSpaces;
    if l == OR_LEVEL || l == AND_LEVEL {
      assert TryKeyword(t, KW_OR).None? && TryKeyword(t, KW_AND).None?;
    } else if l == CMP_LEVEL || l == ADD_LEVEL || l == MUL_LEVEL {
      forall i | 0 <= i < |Table(l)| ensures !(Table(l)[i].text <= t) {
        assert Table(l)[i].text[0] != t[0];
      }
      NoPunctuation(Table(l), t);
    }
  }

  // ---- spaces do not matter ----

  lemma TokenSkips(t: Token, s: Bytes)
    ensures TryToken(t, SkipSpaces(s)).0 == TryToken(t, s).0
    ensures if TryToken(t, s).0 then TryToken(t, SkipSpaces(s)) == TryToken(t, s)
            else TryToken(t, s).1 in [s, SkipSpaces(s)] && TryToken(t, SkipSpaces(s)).1 == SkipSpaces(s)
  {
    hide SkipSpaces, EqualFold;
    SkipIdempotent(s);
  }

  lemma {:induction false} TokensSkip(ts: seq<Token>, s: Bytes)
    requires forall i :: 0 <= i < |ts| ==> ts[i].text != []
    ensures TryTokens(ts, SkipSpaces(s)).0 == TryTokens(ts, s).0
    ensures TryTokens(ts, s).0.Some? ==> TryTokens(ts, SkipSpaces(s)) == TryTokens(ts, s)
    ensures TryTokens(ts, s).0.None? ==> SkipSpaces(TryTokens(ts, s).1) == SkipSpaces(s)
  {
    hide SkipSpaces, TryToken;
    SkipIdempotent(s);
    if ts != [] {
      TokenSkips(ts[0], s);
      TokensSkip(ts[1..], s);
      TokensSkip(ts[1..], SkipSpaces(s));
    }
  }

  /** Leading spaces change nothing for any level. */
  lemma {:induction false} LeadingSpaces(level: nat, s: Bytes)
    requires level <= ATOM_LEVEL
    ensures ParseLevel(level, SkipSpaces(s)) == ParseLevel(level, s)
    decreases ATOM_LEVEL - level
  {
    hide SkipSpaces, ParseMore, ParseList, ParseValue, NameLength;
    SkipIdempotent(s);
    if level == ATOM_LEVEL {
      AtomSkips(s);
    } else {
      hide ParseAtom;
      LeadingSpaces(level + 1, s);
    }
  }

  lemma AtomSkips(s: Bytes)
    ensures ParseAtom(SkipSpaces(s)) == ParseAtom(s)
  {
    hide SkipSpaces, ParseList, ParseValue, TryName;
    SkipIdempotent(s);
  }

  lemma OneSpace(level: nat, s: Bytes)
    requires level <= ATOM_LEVEL
    ensures ParseLevel(level, [32] + s) == ParseLevel(level, s)
  {
    assert ([32] + s)[1..] == s;
    assert SkipSpaces([32] + s) == SkipSpaces(s);
    hide ParseLevel;
    LeadingSpaces(level, s);
    LeadingSpaces(level, [32] + s);
  }

  /** What is left when no operator follows: punctuation is looked for behind the
      spaces, keywords are not. */
  function Left(level: nat, rest: Bytes): Bytes {
    if level <= MUL_LEVEL then SkipSpaces(rest) else rest
  }

  lemma NoMore(level: nat, e: Expr, rest: Bytes)
    requires level < ATOM_LEVEL && level != NOT_LEVEL && level != NEG_LEVEL && Stops(level, rest)
    ensures ParseMore(level, e, Left(level + 1, rest)) == Some((e, Left(level, rest)))
  {
    hide SkipSpaces, ParseLevel;
    SkipIdempotent(rest);
    assert TryTokens(Table(level), rest).0.None?;
    TokensSkip(Table(level), rest);
    NoTokenLeft(level, Left(level + 1, rest));
  }

  lemma NoTokenLeft(level: nat, s: Bytes)
    requires level < ATOM_LEVEL && level != NOT_LEVEL && level != NEG_LEVEL && TryTokens(Table(level), s).0.None?
    ensures TryTokens(Table(level), s).1 == if level <= AND_LEVEL then s else SkipSpaces(s)
  {
    hide SkipSpaces;
    if level > AND_LEVEL { NoneIsSkip(Table(level), s); }
  }

  lemma {:induction false} NoneIsSkip(ts: seq<Token>, s: Bytes)
    requires AllPunctuation(ts) && ts != [] && TryTokens(ts, s).0.None?
    ensures TryTokens(ts, s).1 == SkipSpaces(s)
  {
    hide SkipSpaces;
    SkipIdempotent(s);
    if |ts| > 1 { NoneIsSkip(ts[1..], SkipSpaces(s)); }
  }

  // ---- what a printed operand starts with ----

  lemma OtherStart(text: Bytes)
    requires text != [] && !IsSpace(text[0]) && text[0] != 78 && text[0] != 110
    ensures TryKeyword(text, KW_NOT).None?
  {
    assert SkipSpaces(text) == text;
    if |text| >= 3 { assert text[..3][0] == text[0]; }
  }

  lemma NotALetter(text: Bytes, i: nat)
    requires i < |text| == 3 && !IsNameContinue(text[i])
    ensures !EqualFold(text, KW_NOT)
  {
  }

  /** A name is never taken for the keyword NOT, whatever comes after it. */
  lemma NameIsNotKeyword(name: Bytes, rest: Bytes)
    requires IsIdentifier(name) && !EqualFold(name, KW_NOT) && Separated(rest)
    ensures TryKeyword(name + rest, KW_NOT).None?
  {
    var text := name + rest;
    assert text[0] == name[0];
    assert SkipSpaces(text) == text;
    hide SkipSpaces, IsAlpha, EqualFold;
    if |name| > 3 {
      assert text[3] == name[3];
    } else if |name| == 3 {
      assert text[..3] == name;
    } else if |text| >= 3 {
      assert text[..3][|name|] == rest[0];
      NotALetter(text[..3], |name|);
    }
  }

  lemma ConstStart(c: Cell, rest: Bytes)
    ensures var text := (if c.typ.TypeI64? && c.num >= 0 then Digits(c.num) else [39] + Quoted(c.str) + [39]) + rest;
      text != [] && (IsDigit(text[0]) || text[0] == 39)
  {
    hide Quoted;
    if c.typ.TypeI64? && c.num >= 0 {
      var ds := Digits(c.num);
      assert (ds + rest)[0] == ds[0];
    }
  }

  /** An operand of a comparison or tighter is not taken for a NOT. */
  lemma {:induction false} NoNotAhead(e: Expr, level: nat, rest: Bytes)
    requires Printable(e) && level >= CMP_LEVEL && Separated(rest)
    ensures TryKeyword(Print(e, level) + rest, KW_NOT).None?
    decreases e
  {
    hide TryKeyword, Print, EqualFold, IsIdentifier, Spaced;
    PrintForm(e, level);
    if e.Bin? && LevelOf(e) >= level {
      PrintForm(e, LevelOf(e));
      PrintedBinary(e, LevelOf(e), rest);
      OpStops(e.op, Print(e.right, LevelOf(e) + 1) + rest);
      NoNotAhead(e.left, LevelOf(e), Spaced(e.op, Print(e.right, LevelOf(e) + 1) + rest));
    } else {
      SimpleStart(e, level, rest);
    }
  }

  lemma SimpleStart(e: Expr, level: nat, rest: Bytes)
    requires Printable(e) && level >= CMP_LEVEL && Separated(rest) && (LevelOf(e) < level || !e.Bin?)
    ensures TryKeyword(Print(e, level) + rest, KW_NOT).None?
  {
    hide TryKeyword, Quoted, Digits, EqualFold, IsIdentifier, PrintList, Print;
    var text := Print(e, level) + rest;
    PrintForm(e, level);
    if LevelOf(e) < level {
      assert text[0] == 40;
      OtherStart(text);
    } else {
      match e
      case Col(name) => NameIsNotKeyword(name, rest);
      case Const(c) =>
        ConstStart(c, rest);
        OtherStart(text);
      case Un(op, kid) =>
        assert Body(e) == [45] + [32] + Print(kid, OpLevel(op));
        assert text[0] == 45;
        OtherStart(text);
      case Tuple(kids) =>
        assert Body(e) == [40] + PrintList(kids) + [41];
        assert text[0] == 40;
        OtherStart(text);
    }
  }

  lemma PrintForm(e: Expr, level: nat)
    requires Printable(e)
    ensures Print(e, level) == if LevelOf(e) < level then [40] + Body(e) + [41] else Body(e)
  {
    hide Body;
  }

  lemma NoMinus(text: Bytes)
    requires text != [] && !IsSpace(text[0]) && text[0] != 45
    ensures TryPunctuation(text, [45]) == (false, text)
  {
    assert SkipSpaces(text) == text;
  }

  /** An atom does not start with a minus. */
  lemma NoMinusAhead(e: Expr, rest: Bytes)
    requires Printable(e)
    ensures TryPunctuation(Print(e, ATOM_LEVEL) + rest, [45]) == (false, Print(e, ATOM_LEVEL) + rest)
  {
    hide TryPunctuation, Quoted, Digits, PrintList, EqualFold, Print;
    var text := Print(e, ATOM_LEVEL) + rest;
    PrintForm(e, ATOM_LEVEL);
    if LevelOf(e) < ATOM_LEVEL {
      assert text[0] == 40;
    } else {
      match e
      case Col(name) =>
        assert Body(e) == name;
        assert text[0] == name[0];
      case Const(c) => ConstStart(c, rest);
      case Tuple(kids) =>
        assert Body(e) == [40] + PrintList(kids) + [41];
        assert text[0] == 40;
    }
    NoMinus(text);
  }

  // ---- the round trip ----

  predicate Loops(level: nat) {
    level < ATOM_LEVEL && level != NOT_LEVEL && level != NEG_LEVEL
  }

  /** Printed at some level and followed by something no operator of that level
      can read, an expression is parsed back, and exactly its text consumed. */
  lemma {:induction false} ReadsBack(e: Expr, level: nat, rest: Bytes)
    requires Printable(e) && level <= ATOM_LEVEL && Separated(rest) && Stops(level, rest)
    ensures ParseLevel(level, Print(e, level) + rest) == Some((e, Left(level, rest)))
    decreases e, (if LevelOf(e) < level then 100 else 0) + 2 * (8 - level) + 1
  {
    hide Print, Body, Stops, TryKeyword, TryPunctuation, ParseAtom, ParseMore, Printable, SkipSpaces;
    var text := Print(e, level) + rest;
    StopsTighter(level, rest);
    if level == ATOM_LEVEL {
      AtomReadsBack(e, rest);
    } else if Loops(level) {
      BecomesLeft(e, level, rest);
      NoMore(level, e, rest);
    } else if LevelOf(e) == level {
      PrintedPrefix(e, level, rest);
      ReadsBack(e.kid, level, rest);
      OneSpace(level, Print(e.kid, level) + rest);
    } else {
      SamePrint(e, level);
      if level == NOT_LEVEL { NoNotAhead(e, CMP_LEVEL, rest); } else { NoMinusAhead(e, rest); }
      ReadsBack(e, level + 1, rest);
    }
  }

  /** Left associativity: with an operator of the same level still ahead, what has
      been printed becomes the left operand of the loop. */
  lemma {:induction false} BecomesLeft(e: Expr, level: nat, rest: Bytes)
    requires Printable(e) && Loops(level) && Separated(rest) && Stops(level + 1, rest)
    ensures ParseLevel(level, Print(e, level) + rest) == ParseMore(level, e, Left(level + 1, rest))
    decreases e, (if LevelOf(e) < level then 100 else 0) + 2 * (8 - level)
  {
    hide Print, Body, Stops, TryTokens, ParseAtom, Printable, SkipSpaces;
    if LevelOf(e) == level {
      BinaryOperand(e, level);
      var op, more := e.op, Print(e.right, level + 1) + rest;
      OpStops(op, more);
      OpReads(op, more);
      TokensSkip(Table(level), Spaced(op, more));
      PrintedBinary(e, level, rest);
      BecomesLeft(e.left, level, Spaced(op, more));
      OneSpace(level + 1, more);
      ReadsBack(e.right, level + 1, rest);
    } else {
      SamePrint(e, level);
      ReadsBack(e, level + 1, rest);
    }
  }

  lemma {:induction false} AtomReadsBack(e: Expr, rest: Bytes)
    requires Printable(e) && Separated(rest)
    ensures ParseAtom(Print(e, ATOM_LEVEL) + rest) == Some((e, rest))
    decreases e, if LevelOf(e) < ATOM_LEVEL then 102 else 2
  {
    hide ParseAtom, Print, Body, PrintList, ParseList, Stops, SkipSpaces, ParseLevel;
    PrintForm(e, ATOM_LEVEL);
    if LevelOf(e) < ATOM_LEVEL {
      DelimiterStops(41, rest);
      PrintForm(e, OR_LEVEL);
      ReadsBack(e, OR_LEVEL, [41] + rest);
      OneMember(e, Body(e), rest);
      Enclosed(Body(e), rest);
    } else {
      match e
      case Col(name) => ColumnReadsBack(name, rest);
      case Const(c) => ConstReadsBack(c, rest);
      case Tuple(kids) =>
        ListReadsBack(kids, rest);
        ManyMembers(kids, PrintList(kids), rest);
        TupleBody(kids);
        Enclosed(PrintList(kids), rest);
    }
  }

  lemma ColumnReadsBack(name: Bytes, rest: Bytes)
    requires Printable(Col(name)) && Separated(rest)
    ensures ParseAtom(Body(Col(name)) + rest) == Some((Col(name), rest))
  {
    hide ParseAtom;
    NameReadsBack(name, rest);
  }

  lemma TupleBody(kids: seq<Expr>)
    requires Printable(Tuple(kids))
    ensures kids != [] && Body(Tuple(kids)) == [40] + PrintList(kids) + [41]
  {
    hide PrintList;
  }

  lemma Enclosed(text: Bytes, rest: Bytes)
    ensures [40] + text + [41] + rest == [40] + (text + ([41] + rest))
  {
  }

  lemma {:induction false} ListReadsBack(es: seq<Expr>, rest: Bytes)
    requires es != [] && forall e :: e in es ==> Printable(e)
    ensures ParseList(PrintList(es) + ([41] + rest)) == Some((es, [41] + rest))
    decreases es, 0
  {
    hide Print, Stops, TryPunctuation, ParseLevel, ParseList, Printable, SkipSpaces;
    var first := Print(es[0], OR_LEVEL);
    if |es| == 1 {
      DelimiterStops(41, rest);
      ReadsBack(es[0], OR_LEVEL, [41] + rest);
      ListEnds(es[0], first + ([41] + rest), rest);
      assert es == [es[0]];
    } else {
      var more := PrintList(es[1..]) + ([41] + rest);
      DelimiterStops(44, [32] + more);
      assert PrintList(es) + ([41] + rest) == first + ([44] + ([32] + more));
      ReadsBack(es[0], OR_LEVEL, [44] + ([32] + more));
      ListReadsBack(es[1..], rest);
      ListContinues(es[0], first + ([44] + ([32] + more)), es[1..], more, [41] + rest);
      assert es == [es[0]] + es[1..];
    }
  }

  lemma ListEnds(e: Expr, text: Bytes, rest: Bytes)
    requires ParseLevel(OR_LEVEL, text) == Some((e, [41] + rest))
    ensures ParseList(text) == Some(([e], [41] + rest))
  {
    hide ParseLevel, TryPunctuation;
    NoComma(rest);
  }

  lemma ListContinues(e: Expr, text: Bytes, es: seq<Expr>, more: Bytes, tail: Bytes)
    requires ParseLevel(OR_LEVEL, text) == Some((e, [44] + ([32] + more))) && ParseList(more) == Some((es, tail))
    ensures ParseList(text) == Some(([e] + es, tail))
  {
    ListSpace(more);
    hide ParseLevel, TryPunctuation;
    Comma([32] + more);
  }

  // ---- the steps of that proof ----

  lemma StopsTighter(level: nat, rest: Bytes)
    requires Stops(level, rest)
    ensures Stops(level + 1, rest)
  {
    hide TryTokens;
  }

  lemma SamePrint(e: Expr, level: nat)
    requires Printable(e) && LevelOf(e) != level
    ensures Print(e, level) == Print(e, level + 1)
  {
    hide Body;
  }

  lemma BinaryOperand(e: Expr, level: nat)
    requires Printable(e) && Loops(level) && LevelOf(e) == level
    ensures e.Bin? && IsBinary(e.op) && OpLevel(e.op) == level && Printable(e.left) && Printable(e.right)
  {
  }

  lemma PrintedBinary(e: Expr, level: nat, rest: Bytes)
    requires Printable(e) && e.Bin? && OpLevel(e.op) == level
    ensures Printable(e.left) && Printable(e.right)
    ensures Print(e, level) + rest == Print(e.left, level) + Spaced(e.op, Print(e.right, level + 1) + rest)
  {
  }

  lemma PrintedPrefix(e: Expr, level: nat, rest: Bytes)
    requires Printable(e) && (level == NOT_LEVEL || level == NEG_LEVEL) && LevelOf(e) == level
    ensures e.Un? && Printable(e.kid) && e.uop == if level == NOT_LEVEL then NOT else NEG
    ensures var text, more := Print(e, level) + rest, [32] + (Print(e.kid, level) + rest);
      if level == NOT_LEVEL then TryKeyword(text, KW_NOT) == Some(more) else TryPunctuation(text, [45]) == (true, more)
  {
    hide TryKeyword;
    var kid := Print(e.kid, level);
    var text, more := Print(e, level) + rest, [32] + (kid + rest);
    assert Print(e, level) == OpText(e.uop) + [32] + kid;
    assert text == OpText(e.uop) + more;
    assert text[0] == OpText(e.uop)[0];
    assert SkipSpaces(text) == text;
    if level == NOT_LEVEL {
      assert text == KW_NOT + more;
      KeywordReads(KW_NOT, KW_NOT, text, more);
    } else {
      assert text[1..] == more;
    }
  }

  lemma NoComma(rest: Bytes)
    ensures TryPunctuation([41] + rest, [44]) == (false, [41] + rest)
    ensures TryPunctuation([41] + rest, [41]) == (true, rest)
  {
    assert SkipSpaces([41] + rest) == [41] + rest;
    assert ([41] + rest)[1..] == rest;
  }

  lemma Comma(rest: Bytes)
    ensures TryPunctuation([44] + rest, [44]) == (true, rest)
  {
    assert SkipSpaces([44] + rest) == [44] + rest;
    assert ([44] + rest)[1..] == rest;
  }

  lemma ListSpace(s: Bytes)
    ensures ParseList([32] + s) == ParseList(s)
  {
    OneSpace(OR_LEVEL, s);
    hide ParseLevel, SkipSpaces;
  }

  lemma OpenParen(s: Bytes)
    ensures SkipSpaces([40] + s) == [40] + s && ([40] + s)[1..] == s
  {
  }

  lemma OneMember(e: Expr, text: Bytes, rest: Bytes)
    requires ParseLevel(OR_LEVEL, text + ([41] + rest)) == Some((e, [41] + rest))
    ensures ParseAtom([40] + (text + ([41] + rest))) == Some((e, rest))
  {
    hide ParseLevel, SkipSpaces, TryPunctuation, TryName, ParseValue;
    NoComma(rest);
    OpenParen(text + ([41] + rest));
  }

  lemma ManyMembers(es: seq<Expr>, text: Bytes, rest: Bytes)
    requires |es| >= 2 && ParseList(text + ([41] + rest)) == Some((es, [41] + rest))
    ensures ParseAtom([40] + (text + ([41] + rest))) == Some((Tuple(es), rest))
  {
    hide ParseList, SkipSpaces, TryPunctuation, TryName, ParseValue;
    NoComma(rest);
    OpenParen(text + ([41] + rest));
  }

  lemma NothingStops()
    ensures Stops(OR_LEVEL, []) && Separated([]) && SkipSpaces([]) == []
  {
    forall l | OR_LEVEL <= l < ATOM_LEVEL ensures TryTokens(Table(l), []).0.None? {
      if l == CMP_LEVEL || l == ADD_LEVEL || l == MUL_LEVEL { NoPunctuation(Table(l), []); }
    }
  }

  /** Parsing undoes printing, for every printable tree. */
  lemma ParsePrint(e: Expr)
    requires Printable(e)
    ensures ParseLevel(OR_LEVEL, Print(e, OR_LEVEL)) == Some((e, []))
  {
    hide ParseLevel, Print, Stops, SkipSpaces;
    NothingStops();
    ReadsBack(e, OR_LEVEL, []);
    assert Print(e, OR_LEVEL) + [] == Print(e, OR_LEVEL);
  }

  /** Two trees printed alike are the same tree: the printing leaves out no
      parenthesis that matters. */
  lemma PrintIsInjective(a: Expr, b: Expr)
    requires Printable(a) && Printable(b) && Print(a, OR_LEVEL) == Print(b, OR_LEVEL)
    ensures a == b
  {
    hide ParseLevel, Print;
    ParsePrint(a);
    ParsePrint(b);
  }
}
