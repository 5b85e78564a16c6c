/** The grammar of expressions as a function of the text: seven levels of
    precedence, each defined by the next. */
module Grammar {
  import opened Bytes
  import opened KeyCodec
  import opened Expressions
  import opened Tokens

  datatype Token = Keyword(text: Bytes, op: Op) | Punctuation(text: Bytes, op: Op)

  const OR_LEVEL := 0
  const AND_LEVEL := 1
  const NOT_LEVEL := 2
  const CMP_LEVEL := 3
  const ADD_LEVEL := 4
  const MUL_LEVEL := 5
  const NEG_LEVEL := 6
  const ATOM_LEVEL := 7

  const KW_OR: Bytes := [79, 82]
  const KW_AND: Bytes := [65, 78, 68]
  const KW_NOT: Bytes := [78, 79, 84]

  /** The operators of a left-associative level, in the order in which they are tried. */
  function Table(level: nat): (r: seq<Token>)
    ensures forall i :: 0 <= i < |r| ==> r[i].text != []
  {
    if level == OR_LEVEL then [Keyword(KW_OR, OR)]
    else if level == AND_LEVEL then [Keyword(KW_AND, AND)]
    else if level == CMP_LEVEL then
      [Punctuation([60, 61], LE), Punctuation([62, 61], GE), Punctuation([60, 62], NE), Punctuation([33, 61], NE),
       Punctuation([61], EQ), Punctuation([60], LT), Punctuation([62], GT)]
    else if level == ADD_LEVEL then [Punctuation([43], ADD), Punctuation([45], SUB)]
    else if level == MUL_LEVEL then [Punctuation([42], MUL), Punctuation([47], DIV)]
    else []
  }

  function TryToken(t: Token, s: Bytes): (r: (bool, Bytes))
    ensures |r.1| <= |s| && (r.0 ==> |r.1| + |t.text| <= |s|)
  {
    if t.Punctuation? then TryPunctuation(s, t.text)
    else match TryKeyword(s, t.text)
      case None => (false, s)
      case Some(rest) => (true, rest)
  }

  /** The first token of the table that matches. */
  function TryTokens(ts: seq<Token>, s: Bytes): (r: (Option<Op>, Bytes))
    requires forall i :: 0 <= i < |ts| ==> ts[i].text != []
    ensures |r.1| <= |s| && (r.0.Some? ==> |r.1| < |s|)
  {
    if ts == [] then (None, s)
    else
      var t := TryToken(ts[0], s);
      if t.0 then (Some(ts[0].op), t.1) else TryTokens(ts[1..], t.1)
  }

  /** An expression of the given level and what follows it. */
  function ParseLevel(level: nat, s: Bytes): (r: Option<(Expr, Bytes)>)
    requires level <= ATOM_LEVEL
    ensures r.Some? ==> |r.value.1| <= |s|
    decreases |s|, 2 * (8 - level) + 1
  {
    if level == NOT_LEVEL then
      (match TryKeyword(s, KW_NOT)
       case Some(rest) => (match ParseLevel(level, rest) case None => None case Some(p) => Some((Un(NOT, p.0), p.1)))
       case None => ParseLevel(level + 1, s))
    else if level == NEG_LEVEL then
      var t := TryPunctuation(s, [45]);
      if t.0 then (match ParseLevel(level, t.1) case None => None case Some(p) => Some((Un(NEG, p.0), p.1)))
      else ParseLevel(level + 1, t.1)
    else if level == ATOM_LEVEL then ParseAtom(s)
    else match ParseLevel(level + 1, s)
      case None => None
      case Some(p) => ParseMore(level, p.0, p.1)
  }

  /** The loop of a left-associative level: as long as an operator follows, it takes
      the tree built so far as its left operand. */
  function ParseMore(level: nat, left: Expr, s: Bytes): (r: Option<(Expr, Bytes)>)
    requires level < ATOM_LEVEL
    ensures r.Some? ==> |r.value.1| <= |s|
    decreases |s|, 2 * (8 - level)
  {
    var t := TryTokens(Table(level), s);
    match t.0
    case None => Some((left, t.1))
    case Some(op) => match ParseLevel(level + 1, t.1)
      case None => None
      case Some(p) => ParseMore(level, Bin(op, left, p.0), p.1)
  }

  /** A parenthesised expression or tuple, a column name, or a literal. */
  function ParseAtom(s: Bytes): (r: Option<(Expr, Bytes)>)
    ensures r.Some? ==> |r.value.1| <= |s|
    decreases |s|, 2
  {
    var t := SkipSpaces(s);
    if t != [] && t[0] == 40 then
      (match ParseList(t[1..])
       case None => None
       case Some(p) =>
         var closing := TryPunctuation(p.1, [41]);
         if !closing.0 then None
         else Some((if |p.0| == 1 then p.0[0] else Tuple(p.0), closing.1)))
    else match TryName(t)
      case Some(p) => Some((Col(p.0), p.1))
      case None => ParseValue(t)
  }

  function ParseList(s: Bytes): (r: Option<(seq<Expr>, Bytes)>)
    ensures r.Some? ==> |r.value.1| <= |s| && |r.value.0| > 0
    decreases |s|, 20
  {
    match ParseLevel(OR_LEVEL, s)
    case None => None
    case Some(p) =>
      var comma := TryPunctuation(p.1, [44]);
      if !comma.0 then Some(([p.0], comma.1))
      else match ParseList(comma.1)
        case None => None
        case Some(q) => Some(([p.0] + q.0, q.1))
  }

  function ParseValue(s: Bytes): (r: Option<(Expr, Bytes)>)
    ensures r.Some? ==> |r.value.1| < |s|
  {
    var t := SkipSpaces(s);
    if t == [] then None
    else if t[0] == 34 || t[0] == 39 then
      (match Unquote(t[0], t[1..])
       case None => None
       case Some(p) => Some((Const(Cell(TypeStr, 0, p.0)), p.1)))
    else if IsDigit(t[0]) || t[0] == 45 || t[0] == 43 then
      (match ParseInt(t)
       case None => None
       case Some(p) => Some((Const(Cell(TypeI64, p.0, [])), p.1)))
    else None
  }
}
