/** The recursive-descent parser: a text and a cursor that every method advances.
    Each method is proved to consume exactly what the grammar says. */
module Parsing {
  import opened Bytes
  import opened KeyCodec
  import opened Expressions
  import Tokens
  import opened Grammar
  import Printer

  class Parser {
    const buf: Bytes
    var pos: nat

    ghost predicate Valid()
      reads this
    {
      pos <= |buf|
    }

    /** What has not been read yet. */
    ghost function Rest(): Bytes
      requires Valid()
      reads this
    {
      buf[pos..]
    }

    constructor (sql: Bytes)
      ensures Valid() && buf == sql && Rest() == sql
    {
      buf, pos := sql, 0;
    }

    // ---- tokens ----

    method SkipSpaces()
      requires Valid()
      modifies this
      ensures Valid() && pos >= old(pos) && Rest() == Tokens.SkipSpaces(old(Rest()))
    {
      while pos < |buf| && Tokens.IsSpace(buf[pos])
        invariant old(pos) <= pos <= |buf|
        invariant Tokens.SkipSpaces(Rest()) == Tokens.SkipSpaces(old(Rest()))
        decreases |buf| - pos
      {
        assert Rest()[1..] == buf[pos + 1..];
        pos := pos + 1;
      }
    }

    method TryName() returns (r: Option<Bytes>)
      requires Valid()
      modifies this
      ensures Valid() && pos >= old(pos)
      ensures match Tokens.TryName(old(Rest()))
              case None => r.None? && Rest() == Tokens.SkipSpaces(old(Rest()))
              case Some(p) => r == Some(p.0) && Rest() == p.1
    {
      SkipSpaces();
      Tokens.SkipIdempotent(old(Rest()));
      hide Tokens.SkipSpaces;
      var start := pos;
      ghost var t := Rest();
      if start >= |buf| || !Tokens.IsNameStart(buf[start]) {
        return None;
      }
      StartContinues(buf[start]);
      hide Tokens.IsNameStart, Tokens.IsNameContinue;
      pos := pos + 1;
      while pos < |buf| && Tokens.IsNameContinue(buf[pos])
        invariant start < pos <= |buf| && t == buf[start..]
        invariant forall i :: 0 <= i < pos - start ==> Tokens.IsNameContinue(t[i])
        decreases |buf| - pos
      {
        pos := pos + 1;
      }
      NameEnds(t, pos - start);
      Slices(buf, start, pos);
      return Some(buf[start..pos]);
    }

    /** Rewinds to where it began unless every keyword matches. */
    method TryKeyword(kws: seq<Bytes>) returns (ok: bool)
      requires Valid()
      modifies this
      ensures Valid() && pos >= old(pos)
      ensures match Tokens.TryKeywords(old(Rest()), kws)
              case None => !ok && pos == old(pos)
              case Some(rest) => ok && Rest() == rest
    {
      hide Tokens.SkipSpaces, Tokens.EqualFold;
      var saved := pos;
      var i := 0;
      assert kws[0..] == kws;
      while i < |kws|
        invariant 0 <= i <= |kws| && saved <= pos <= |buf|
        invariant Tokens.TryKeywords(Rest(), kws[i..]) == Tokens.TryKeywords(old(Rest()), kws)
      {
        assert kws[i..][0] == kws[i] && kws[i..][1..] == kws[i + 1..];
        SkipSpaces();
        var end := pos + |kws[i]|;
        if end > |buf| || !Tokens.EqualFold(buf[pos..end], kws[i]) {
          assert end <= |buf| ==> Rest()[..|kws[i]|] == buf[pos..end];
          pos := saved;
          return false;
        }
        assert Rest()[..|kws[i]|] == buf[pos..end] && Rest()[|kws[i]|..] == buf[end..];
        if end < |buf| && Tokens.IsNameContinue(buf[end]) {
          assert Rest()[|kws[i]|] == buf[end];
          pos := saved;
          return false;
        }
        pos := end;
        i := i + 1;
      }
      return true;
    }

    method TryPunctuation(pun: Bytes) returns (ok: bool)
      requires Valid()
      modifies this
      ensures Valid() && pos >= old(pos)
      ensures (ok, Rest()) == Tokens.TryPunctuation(old(Rest()), pun)
    {
      SkipSpaces();
      var end := pos + |pun|;
      PrefixAt(buf, pos, pun);
      if end > |buf| || buf[pos..end] != pun {
        return false;
      }
      assert Rest()[|pun|..] == buf[end..];
      pos := end;
      return true;
    }

    // ---- literals ----

    method ReadDigits() returns (n: nat)
      requires Valid()
      modifies this
      ensures Valid() && var t := old(Rest()); var k := Tokens.DigitCount(t);
        pos == old(pos) + k && Rest() == t[k..] && n == Tokens.DigitsValue(t[..k])
    {
      var digits := pos;
      ghost var t := Rest();
      n := 0;
      while pos < |buf| && Tokens.IsDigit(buf[pos])
        invariant digits <= pos <= |buf|
        invariant forall i :: 0 <= i < pos - digits ==> Tokens.IsDigit(t[i])
        invariant n == Tokens.DigitsValue(t[..pos - digits])
        decreases |buf| - pos
      {
        assert t[pos - digits] == buf[pos];
        assert t[..pos - digits + 1][..pos - digits] == t[..pos - digits];
        n := 10 * n + (buf[pos] - 48);
        pos := pos + 1;
      }
      DigitsEnd(t, pos - digits);
      assert t[pos - digits..] == Rest();
    }

    method ParseInt() returns (r: Option<int>)
      requires Valid()
      modifies this
      ensures Valid() && pos >= old(pos)
      ensures match Tokens.ParseInt(Tokens.SkipSpaces(old(Rest())))
              case None => r.None? && Rest() == Tokens.SkipSpaces(old(Rest()))
              case Some(p) => r == Some(p.0) && Rest() == p.1
    {
      SkipSpaces();
      ghost var was := Rest();
      hide Tokens.SkipSpaces, Tokens.DigitsValue, Tokens.DigitCount;
      var start := pos;
      var signed := pos < |buf| && (buf[pos] == 43 || buf[pos] == 45);
      var negative := pos < |buf| && buf[pos] == 45;
      if signed {
        pos := pos + 1;
      }
      assert Rest() == if signed then was[1..] else was;
      var digits := pos;
      var n := ReadDigits();
      if pos == digits {
        pos := start;
        return None;
      }
      var magnitude: int := n;
      var v := if negative then -magnitude else magnitude;
      if v < -Tokens.MAX_INT - 1 || v > Tokens.MAX_INT {
        pos := start;
        return None;
      }
      return Some(v);
    }

    /** From an opening quote up to the same quote; backslash escapes quotes and
        itself, and nothing else. */
    method ParseString() returns (r: Option<Bytes>)
      requires Valid()
      modifies this
      ensures Valid() && pos >= old(pos)
      ensures match Tokens.ParseString(old(Rest()))
              case None => r.None? && Rest() == Tokens.SkipSpaces(old(Rest()))
              case Some(p) => r == Some(p.0) && Rest() == p.1
    {
      StringFrom(Rest());
      SkipSpaces();
      hide Tokens.SkipSpaces, Tokens.ParseString, Tokens.Unquote;
      if pos >= |buf| {
        return None;
      }
      assert Rest()[0] == buf[pos] && Rest()[1..] == buf[pos + 1..];
      if buf[pos] != 39 && buf[pos] != 34 {
        return None;
      }
      r := ReadQuoted();
    }

    /** What stands behind the opening quote, up to the closing one. */
    method ReadQuoted() returns (r: Option<Bytes>)
      requires Valid() && pos < |buf|
      modifies this
      ensures Valid() && pos >= old(pos)
      ensures match Tokens.Unquote(old(buf[pos]), old(buf[pos + 1..]))
              case None => r.None? && pos == old(pos)
              case Some(p) => r == Some(p.0) && Rest() == p.1
    {
      hide Tokens.Unquote, Prepend;
      var quote, start := buf[pos], pos;
      pos := pos + 1;
      ghost var spec := Tokens.Unquote(quote, Rest());
      var sb: Bytes := [];
      Glue(sb, spec);
      while pos < |buf|
        invariant start < pos <= |buf|
        invariant spec == Prepend(sb, Tokens.Unquote(quote, Rest()))
        decreases |buf| - pos
      {
        var ch := buf[pos];
        UnquoteStep(quote, sb, Rest());
        assert Rest()[1..] == buf[pos + 1..];
        if ch == 92 {
          if pos + 1 >= |buf| {
            pos := start;
            return None;
          }
          var esc := buf[pos + 1];
          if esc != 39 && esc != 34 && esc != 92 {
            pos := start;
            return None;
          }
          assert Rest()[2..] == buf[pos + 2..];
          sb := sb + [esc];
          pos := pos + 2;
        } else if ch == quote {
          pos := pos + 1;
          return Some(sb);
        } else {
          sb := sb + [ch];
          pos := pos + 1;
        }
      }
      UnquoteNothing(quote, sb);
      pos := start;
      return None;
    }

    ghost predicate Agrees(spec: Option<(Expr, Bytes)>, r: Option<Expr>)
      requires Valid()
      reads this
    {
      match spec
      case None => r.None?
      case Some(p) => r == Some(p.0) && Rest() == p.1
    }

    method ParseValue() returns (r: Option<Expr>)
      requires Valid()
      modifies this
      ensures Valid() && pos >= old(pos) && Agrees(Grammar.ParseValue(old(Rest())), r)
    {
      SkipSpaces();
      Tokens.SkipIdempotent(old(Rest()));
      hide Tokens.SkipSpaces, Tokens.ParseInt, Tokens.Unquote;
      if pos >= |buf| {
        return None;
      }
      var ch := buf[pos];
      assert Rest()[0] == ch && Rest()[1..] == buf[pos + 1..];
      if ch == 34 || ch == 39 {
        var str := ParseString();
        return if str.Some? then Some(Const(Cell(TypeStr, 0, str.value))) else None;
      } else if Tokens.IsDigit(ch) || ch == 45 || ch == 43 {
        var n := ParseInt();
        return if n.Some? then Some(Const(Cell(TypeI64, n.value, []))) else None;
      }
      return None;
    }

    // ---- expressions ----

    method TryBinToken(t: Token) returns (ok: bool)
      requires Valid()
      modifies this
      ensures Valid() && pos >= old(pos)
      ensures (ok, Rest()) == TryToken(t, old(Rest()))
    {
      match t
      case Keyword(text, _) =>
        OneKeyword(Rest(), text);
        ok := TryKeyword([text]);
      case Punctuation(text, _) =>
        ok := TryPunctuation(text);
    }

    /** The first operator of a level's table that is ahead. */
    method TryTable(level: nat) returns (op: Option<Op>)
      requires Valid()
      modifies this
      ensures Valid() && pos >= old(pos) && (op.Some? ==> pos > old(pos))
      ensures (op, Rest()) == TryTokens(Table(level), old(Rest()))
    {
      hide Table, TryToken;
      var toks := Table(level);
      var i := 0;
      assert toks[0..] == toks;
      while i < |toks|
        invariant 0 <= i <= |toks| && old(pos) <= pos <= |buf|
        invariant TryTokens(toks[i..], Rest()) == TryTokens(toks, old(Rest()))
        decreases |toks| - i
      {
        assert toks[i..][0] == toks[i] && toks[i..][1..] == toks[i + 1..];
        var matched := TryBinToken(toks[i]);
        if matched {
          return Some(toks[i].op);
        }
        i := i + 1;
      }
      return None;
    }

    /** `inner ((operator) inner)*`, left-associative. */
    method ParseBinop(level: nat) returns (r: Option<Expr>)
      requires Valid() && level < ATOM_LEVEL && level != NOT_LEVEL && level != NEG_LEVEL
      modifies this
      ensures Valid() && pos >= old(pos) && Agrees(Grammar.ParseLevel(level, old(Rest())), r)
      decreases |buf| - pos, 2 * (8 - level)
    {
      hide TryTokens, Table, Grammar.ParseAtom;
      ghost var spec := Grammar.ParseLevel(level, Rest());
      var first := ParseLevel(level + 1);
      if first.None? {
        return None;
      }
      var left := first.value;
      while true
        invariant old(pos) <= pos <= |buf| && spec == ParseMore(level, left, Rest())
        decreases |buf| - pos
      {
        var op := TryTable(level);
        if op.None? {
          return Some(left);
        }
        var right := ParseLevel(level + 1);
        if right.None? {
          return None;
        }
        left := Bin(op.value, left, right.value);
      }
    }

    /** One rung of the ladder. */
    method ParseLevel(level: nat) returns (r: Option<Expr>)
      requires Valid() && level <= ATOM_LEVEL
      modifies this
      ensures Valid() && pos >= old(pos) && Agrees(Grammar.ParseLevel(level, old(Rest())), r)
      decreases |buf| - pos, 2 * (8 - level) + 1
    {
      hide ParseMore, Grammar.ParseAtom, Tokens.TryKeyword, Tokens.TryPunctuation;
      if level == NOT_LEVEL {
        OneKeyword(Rest(), KW_NOT);
        var ok := TryKeyword([KW_NOT]);
        if ok {
          var kid := ParseLevel(level);
          return if kid.Some? then Some(Un(NOT, kid.value)) else None;
        }
        r := ParseLevel(level + 1);
      } else if level == NEG_LEVEL {
        var ok := TryPunctuation([45]);
        if ok {
          var kid := ParseLevel(level);
          return if kid.Some? then Some(Un(NEG, kid.value)) else None;
        }
        r := ParseLevel(level + 1);
      } else if level == ATOM_LEVEL {
        r := ParseAtom();
      } else {
        r := ParseBinop(level);
      }
    }

    method ParseAtom() returns (r: Option<Expr>)
      requires Valid()
      modifies this
      ensures Valid() && pos >= old(pos) && Agrees(Grammar.ParseAtom(old(Rest())), r)
      decreases |buf| - pos, 2
    {
      hide ParseList, Grammar.ParseValue, Tokens.SkipSpaces;
      SkipSpaces();
      Tokens.SkipIdempotent(old(Rest()));
      ghost var t := Rest();
      if pos < |buf| && buf[pos] == 40 {
        r := ParseTuple();
        return;
      }
      var name := TryName();
      if name.Some? {
        return Some(Col(name.value));
      }
      r := ParseValue();
    }

    /** `( expr (, expr)* )`: one member is grouping, more are a tuple. */
    method ParseTuple() returns (r: Option<Expr>)
      requires Valid()
      modifies this
      ensures Valid() && pos >= old(pos)
      ensures Agrees(if Tokens.TryPunctuation(old(Rest()), [40]).0 then Grammar.ParseAtom(old(Rest())) else None, r)
      decreases |buf| - pos, 1
    {
      hide ParseList, Grammar.ParseLevel;
      OpensTuple(Rest());
      var opening := TryPunctuation([40]);
      if !opening {
        return None;
      }
      var kids := CommaList();
      if kids.None? {
        return None;
      }
      var closing := TryPunctuation([41]);
      if !closing {
        return None;
      }
      if |kids.value| == 1 {
        return Some(kids.value[0]);
      }
      return Some(Tuple(kids.value));
    }

    /** Expressions as long as a comma follows. */
    method CommaList() returns (r: Option<seq<Expr>>)
      requires Valid()
      modifies this
      ensures Valid() && pos >= old(pos)
      ensures match ParseList(old(Rest()))
              case None => r.None?
              case Some(p) => r == Some(p.0) && Rest() == p.1
      decreases |buf| - pos, 20
    {
      hide Grammar.ParseLevel, Tokens.TryPunctuation;
      ghost var spec := ParseList(Rest());
      var kids: seq<Expr> := [];
      GlueList([], spec);
      while true
        invariant old(pos) <= pos <= |buf| && spec == PrependList(kids, ParseList(Rest()))
        decreases |buf| - pos
      {
        ghost var at := Rest();
        var e := ParseLevel(OR_LEVEL);
        if e.None? {
          return None;
        }
        ghost var behind := Rest();
        var comma := TryPunctuation([44]);
        if !comma {
          return Some(kids + [e.value]);
        }
        PrependMember(kids, e.value, ParseList(Rest()));
        kids := kids + [e.value];
      }
    }

    /** parseExpr: whatever was printed is parsed back. */
    method ParseExpr() returns (r: Option<Expr>)
      requires Valid()
      modifies this
      ensures Valid() && pos >= old(pos) && Agrees(Grammar.ParseLevel(OR_LEVEL, old(Rest())), r)
      ensures forall e :: Printer.Printable(e) && Printer.Print(e, OR_LEVEL) == old(Rest()) ==>
        r == Some(e) && Rest() == []
    {
      forall e | Printer.Printable(e) && Printer.Print(e, OR_LEVEL) == Rest()
        ensures Grammar.ParseLevel(OR_LEVEL, Rest()) == Some((e, []))
      {
        Printer.ParsePrint(e);
      }
      hide Grammar.ParseLevel, Printer.Print, Printer.Printable;
      r := ParseLevel(OR_LEVEL);
    }
  }

  lemma PrefixAt(buf: Bytes, pos: nat, pun: Bytes)
    requires pos <= |buf|
    ensures pun <= buf[pos..] <==> pos + |pun| <= |buf| && buf[pos..pos + |pun|] == pun
  {
    if pos + |pun| <= |buf| { assert buf[pos..][..|pun|] == buf[pos..pos + |pun|]; }
  }

  lemma StringFrom(s: Bytes)
    ensures var t := Tokens.SkipSpaces(s);
      Tokens.ParseString(s) == if t == [] || (t[0] != 39 && t[0] != 34) then None else Tokens.Unquote(t[0], t[1..])
  {
  }

  lemma OpensTuple(s: Bytes)
    ensures var t := Tokens.SkipSpaces(s);
      Tokens.TryPunctuation(s, [40]) == if t != [] && t[0] == 40 then (true, t[1..]) else (false, t)
  {
  }

  lemma {:induction false} DigitsEnd(t: Bytes, n: nat)
    requires n <= |t| && (forall i :: 0 <= i < n ==> Tokens.IsDigit(t[i]))
    requires n == |t| || !Tokens.IsDigit(t[n])
    ensures Tokens.DigitCount(t) == n
  {
    if n > 0 { DigitsEnd(t[1..], n - 1); }
  }

  lemma OneKeyword(s: Bytes, kw: Bytes)
    ensures Tokens.TryKeywords(s, [kw]) == Tokens.TryKeyword(s, kw)
  {
    hide Tokens.TryKeyword;
    assert [kw][1..] == [];
  }

  // ---- accumulating what a loop has read ----

  ghost function Prepend(front: Bytes, spec: Option<(Bytes, Bytes)>): Option<(Bytes, Bytes)> {
    match spec
    case None => None
    case Some(p) => Some((front + p.0, p.1))
  }

  lemma Glue(front: Bytes, spec: Option<(Bytes, Bytes)>)
    ensures front == [] ==> Prepend(front, spec) == spec
  {
    if spec.Some? && front == [] { assert front + spec.value.0 == spec.value.0; }
  }

  lemma PrependOne(front: Bytes, ch: byte, spec: Option<(Bytes, Bytes)>)
    ensures Prepend(front, Prepend([ch], spec)) == Prepend(front + [ch], spec)
  {
    if spec.Some? { assert front + ([ch] + spec.value.0) == front + [ch] + spec.value.0; }
  }

  /** One round of reading a string: what it makes of the next byte or two. */
  lemma UnquoteStep(quote: byte, front: Bytes, s: Bytes)
    requires s != []
    ensures var spec := Prepend(front, Tokens.Unquote(quote, s));
      if s[0] == 92 then
        if |s| < 2 || !Tokens.IsEscapable(s[1]) then spec.None?
        else spec == Prepend(front + [s[1]], Tokens.Unquote(quote, s[2..]))
      else if s[0] == quote then spec == Some((front, s[1..]))
      else spec == Prepend(front + [s[0]], Tokens.Unquote(quote, s[1..]))
  {
    if s[0] == 92 {
      if |s| >= 2 { PrependOne(front, s[1], Tokens.Unquote(quote, s[2..])); }
    } else if s[0] == quote {
      assert front + [] == front;
    } else {
      PrependOne(front, s[0], Tokens.Unquote(quote, s[1..]));
    }
  }

  lemma UnquoteNothing(quote: byte, front: Bytes)
    ensures Prepend(front, Tokens.Unquote(quote, [])).None?
  {
  }

  ghost function PrependList(front: seq<Expr>, spec: Option<(seq<Expr>, Bytes)>): Option<(seq<Expr>, Bytes)> {
    match spec
    case None => None
    case Some(p) => Some((front + p.0, p.1))
  }

  lemma GlueList(front: seq<Expr>, spec: Option<(seq<Expr>, Bytes)>)
    ensures front == [] ==> PrependList(front, spec) == spec
  {
    if spec.Some? && front == [] { assert front + spec.value.0 == spec.value.0; }
  }

  lemma PrependMember(front: seq<Expr>, e: Expr, spec: Option<(seq<Expr>, Bytes)>)
    ensures PrependList(front, PrependList([e], spec)) == PrependList(front + [e], spec)
  {
    if spec.Some? { assert front + ([e] + spec.value.0) == front + [e] + spec.value.0; }
  }

  lemma Slices(buf: Bytes, a: nat, b: nat)
    requires a <= b <= |buf|
    ensures buf[a..][..b - a] == buf[a..b] && buf[a..][b - a..] == buf[b..]
  {
  }

  lemma StartContinues(ch: byte)
    ensures Tokens.IsNameStart(ch) ==> Tokens.IsNameContinue(ch)
  {
  }

  lemma {:induction false} NameEnds(t: Bytes, n: nat)
    requires n <= |t| && (forall i :: 0 <= i < n ==> Tokens.IsNameContinue(t[i]))
    requires n == |t| || !Tokens.IsNameContinue(t[n])
    ensures Tokens.NameLength(t) == n
  {
    if n > 0 { NameEnds(t[1..], n - 1); }
  }
}
