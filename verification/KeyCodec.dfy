/** Typed cells and their order-preserving key form. */
module KeyCodec {
  import opened Bytes

  type int64 = x: int | -I63 <= x < I63

  datatype CellType = TypeI64 | TypeStr

  /** One value. Only the field that the type names carries it. */
  datatype Cell = Cell(typ: CellType, num: int64, str: Bytes)

  function TypeTag(t: CellType): byte {
    if t.TypeI64? then 1 else 2
  }

  // ---- comparison of values ----

  predicate CellEq(a: Cell, b: Cell)
    requires a.typ == b.typ
  {
    if a.typ.TypeI64? then a.num == b.num else a.str == b.str
  }

  predicate CellLess(a: Cell, b: Cell)
    requires a.typ == b.typ
  {
    if a.typ.TypeI64? then a.num < b.num else Less(a.str, b.str)
  }

  predicate SameTypes(a: seq<Cell>, b: seq<Cell>) {
    |a| == |b| && forall i :: 0 <= i < |a| ==> a[i].typ == b[i].typ
  }

  predicate TupleEq(a: seq<Cell>, b: seq<Cell>)
    requires SameTypes(a, b)
  {
    forall i :: 0 <= i < |a| ==> CellEq(a[i], b[i])
  }

  /** Lexicographic order of equally typed tuples. */
  predicate TupleLess(a: seq<Cell>, b: seq<Cell>)
    requires SameTypes(a, b)
    decreases |a|
  {
    a != [] && (CellLess(a[0], b[0]) || (CellEq(a[0], b[0]) && TupleLess(a[1..], b[1..])))
  }

  // ---- big-endian numbers ----

  function PutBE(n: nat, w: nat): (b: Bytes)
    ensures |b| == w
  {
    if w == 0 then [] else PutBE(n / 256, w - 1) + [n % 256]
  }

  function GetBE(b: Bytes): nat {
    if b == [] then 0 else 256 * GetBE(b[..|b| - 1]) + b[|b| - 1]
  }

  lemma {:induction false} GetPutBE(n: nat, w: nat)
    requires n < Power256(w)
    ensures GetBE(PutBE(n, w)) == n
  {
    if w > 0 {
      GetPutBE(n / 256, w - 1);
      assert PutBE(n, w)[..w - 1] == PutBE(n / 256, w - 1);
    }
  }

  /** Fixed-width big-endian codes compare as the numbers, then as what follows. */
  lemma {:induction false} PutBEOrder(a: nat, b: nat, w: nat, x: Bytes, y: Bytes)
    requires a < Power256(w) && b < Power256(w)
    ensures Less(PutBE(a, w) + x, PutBE(b, w) + y) <==> a < b || (a == b && Less(x, y))
  {
    if w == 0 {
      assert PutBE(a, w) + x == x && PutBE(b, w) + y == y;
    } else {
      var xa, yb := [a % 256] + x, [b % 256] + y;
      PutBEOrder(a / 256, b / 256, w - 1, xa, yb);
      assert PutBE(a, w) + x == PutBE(a / 256, w - 1) + xa;
      assert PutBE(b, w) + y == PutBE(b / 256, w - 1) + yb;
      assert xa[1..] == x && yb[1..] == y;
    }
  }

  lemma Width8()
    ensures Power256(8) == U64
  {
    assert Power256(2) == 65536 && Power256(4) == 65536 * 65536;
    assert Power256(6) == 65536 * Power256(4);
  }

  // ---- the key form of one cell ----

  /** uint64(v): two's complement. */
  function ToUnsigned(v: int64): (u: nat)
    ensures u < U64
  {
    if v < 0 then v + U64 else v
  }

  /** u ^ (1 << 63). */
  function FlipSign(u: nat): (r: nat)
    requires u < U64
    ensures r < U64
  {
    if u >= I63 then u - I63 else u + I63
  }

  function FromUnsigned(u: nat): int64
    requires u < U64
  {
    if u >= I63 then u - U64 else u
  }

  function EscapeByte(ch: byte): Bytes {
    if ch <= 1 then [1, ch + 1] else [ch]
  }

  function Escaped(s: Bytes): Bytes {
    if s == [] then [] else EscapeByte(s[0]) + Escaped(s[1..])
  }

  function EncodeCellKey(c: Cell): Bytes {
    if c.typ.TypeI64? then PutBE(FlipSign(ToUnsigned(c.num)), 8) else Escaped(c.str) + [0]
  }

  /** encodeStrKey: one pass over the input, appending. */
  method EncodeStrKey(buf: Bytes, input: Bytes) returns (out: Bytes)
    ensures out == buf + Escaped(input) + [0]
  {
    out := buf;
    var i := 0;
    assert input[0..] == input;
    while i < |input|
      invariant 0 <= i <= |input|
      invariant out + Escaped(input[i..]) == buf + Escaped(input)
    {
      var ch := input[i];
      assert input[i..][1..] == input[i + 1..];
      assert out + (EscapeByte(ch) + Escaped(input[i + 1..])) == (out + EscapeByte(ch)) + Escaped(input[i + 1..]);
      if ch == 0x00 || ch == 0x01 {
        out := out + [0x01, ch + 1];
      } else {
        out := out + [ch];
      }
      i := i + 1;
    }
    assert out == buf + Escaped(input) by { assert input[|input|..] == []; }
    out := out + [0x00];
  }

  lemma EscapedEnd(x: Bytes)
    ensures Escaped([]) + [0] + x == [0] + x && ([0] + x)[1..] == x
  {
  }

  lemma EscapedCons(a: Bytes, x: Bytes)
    requires a != []
    ensures Escaped(a) + [0] + x == EscapeByte(a[0]) + (Escaped(a[1..]) + [0] + x)
    ensures (EscapeByte(a[0]) + (Escaped(a[1..]) + [0] + x))[0] == if a[0] <= 1 then 1 else a[0]
  {
    assert Escaped(a) == EscapeByte(a[0]) + Escaped(a[1..]);
    EscapeStart(a[0]);
    Regrouped(EscapeByte(a[0]), Escaped(a[1..]), x);
  }

  lemma Regrouped(p: Bytes, q: Bytes, x: Bytes)
    requires p != []
    ensures p + q + [0] + x == p + (q + [0] + x) && (p + (q + [0] + x))[0] == p[0]
  {
  }

  lemma EscapeStart(ch: byte)
    ensures EscapeByte(ch) != [] && EscapeByte(ch)[0] == if ch <= 1 then 1 else ch
  {
  }

  /** Two different bytes keep their order when escaped, whatever follows them. */
  lemma EscapeByteOrder(c: byte, d: byte, x: Bytes, y: Bytes)
    requires c != d
    ensures Less(EscapeByte(c) + x, EscapeByte(d) + y) <==> c < d
  {
    var ec, ed := EscapeByte(c) + x, EscapeByte(d) + y;
    if c <= 1 && d <= 1 { assert ec[1..][0] == c + 1 && ed[1..][0] == d + 1; }
  }

  /** Escaped and terminated strings compare as the strings, then as what follows. */
  lemma {:induction false} EscapedOrder(a: Bytes, b: Bytes, x: Bytes, y: Bytes)
    ensures Less(Escaped(a) + [0] + x, Escaped(b) + [0] + y) <==> Less(a, b) || (a == b && Less(x, y))
    decreases |a|
  {
    hide Escaped, EscapeByte;
    if a == [] { EscapedEnd(x); } else { EscapedCons(a, x); }
    if b == [] { EscapedEnd(y); } else { EscapedCons(b, y); }
    if a != [] && b != [] {
      var ta, tb := Escaped(a[1..]) + [0] + x, Escaped(b[1..]) + [0] + y;
      if a[0] == b[0] {
        EscapedOrder(a[1..], b[1..], x, y);
        LessCommonPrefix(EscapeByte(a[0]), ta, tb);
        assert a == [a[0]] + a[1..] && b == [b[0]] + b[1..];
      } else {
        EscapeByteOrder(a[0], b[0], ta, tb);
      }
    }
  }

  /** The key form of a cell is monotone and prefix-free: comparing two forms with
      anything behind them compares the cells, and only between equal cells what
      follows. */
  lemma CellKeyOrder(a: Cell, b: Cell, x: Bytes, y: Bytes)
    requires a.typ == b.typ
    ensures Less(EncodeCellKey(a) + x, EncodeCellKey(b) + y) <==> CellLess(a, b) || (CellEq(a, b) && Less(x, y))
  {
    if a.typ.TypeI64? {
      Width8();
      PutBEOrder(FlipSign(ToUnsigned(a.num)), FlipSign(ToUnsigned(b.num)), 8, x, y);
    } else {
      EscapedOrder(a.str, b.str, x, y);
    }
  }

  // ---- tuples of cells ----

  /** Each key column is preceded by its type tag. */
  function EncodeCols(cells: seq<Cell>): Bytes {
    if cells == [] then [] else [TypeTag(cells[0].typ)] + EncodeCellKey(cells[0]) + EncodeCols(cells[1..])
  }

  /** Byte order of the concatenated columns is tuple order of the values. */
  lemma {:induction false} ColsOrder(a: seq<Cell>, b: seq<Cell>, x: Bytes, y: Bytes)
    requires SameTypes(a, b)
    ensures Less(EncodeCols(a) + x, EncodeCols(b) + y) <==> TupleLess(a, b) || (TupleEq(a, b) && Less(x, y))
    decreases |a|
  {
    hide Less, EncodeCellKey, CellLess, CellEq;
    if a == [] {
      assert EncodeCols(a) + x == x && EncodeCols(b) + y == y;
    } else {
      hide TupleEq, EncodeCols;
      var ta, tb := EncodeCols(a[1..]) + x, EncodeCols(b[1..]) + y;
      var tag := [TypeTag(a[0].typ)];
      ColsOrder(a[1..], b[1..], x, y);
      CellKeyOrder(a[0], b[0], ta, tb);
      LessCommonPrefix(tag, EncodeCellKey(a[0]) + ta, EncodeCellKey(b[0]) + tb);
      EncodeColsCons(a, x);
      EncodeColsCons(b, y);
      TupleEqCons(a, b);
    }
  }

  lemma EncodeColsCons(a: seq<Cell>, x: Bytes)
    requires a != []
    ensures EncodeCols(a) + x == [TypeTag(a[0].typ)] + (EncodeCellKey(a[0]) + (EncodeCols(a[1..]) + x))
  {
    hide EncodeCellKey;
  }

  lemma TupleEqCons(a: seq<Cell>, b: seq<Cell>)
    requires SameTypes(a, b) && a != []
    ensures TupleEq(a, b) <==> CellEq(a[0], b[0]) && TupleEq(a[1..], b[1..])
  {
    if CellEq(a[0], b[0]) && TupleEq(a[1..], b[1..]) {
      forall i | 0 <= i < |a| ensures CellEq(a[i], b[i]) {
        if i > 0 { assert a[i] == a[1..][i - 1] && b[i] == b[1..][i - 1]; }
      }
    }
  }

  /** Exactly one of less, equal and greater holds between equally typed tuples. */
  lemma {:induction false} TupleTrichotomy(a: seq<Cell>, b: seq<Cell>)
    requires SameTypes(a, b)
    ensures TupleLess(a, b) ==> !TupleLess(b, a) && !TupleEq(a, b)
    ensures TupleLess(a, b) || TupleEq(a, b) || TupleLess(b, a)
    ensures TupleEq(a, b) ==> !TupleLess(a, b)
    decreases |a|
  {
    if a != [] {
      TupleTrichotomy(a[1..], b[1..]);
      TupleEqCons(a, b);
      Trichotomy(a[0].str, b[0].str);
      Trichotomy(b[0].str, a[0].str);
    }
  }

  /** Equal tuples have the same bytes, and only they do: the encoding of a key is
      injective. */
  lemma {:induction false} ColsInjective(a: seq<Cell>, b: seq<Cell>, x: Bytes, y: Bytes)
    requires SameTypes(a, b) && EncodeCols(a) + x == EncodeCols(b) + y
    ensures TupleEq(a, b)
  {
    TupleTrichotomy(a, b);
    ColsOrder(a, b, x, y);
    ColsOrder(b, a, y, x);
    LessIrreflexive(EncodeCols(a) + x);
    assert SameTypes(b, a);
  }

  // ---- reading a key column back ----

  /** Unescapes up to the terminator; the second part is what follows it. */
  function DecodeStr(data: Bytes): Option<(Bytes, Bytes)>
    decreases |data|
  {
    if data == [] then None
    else if data[0] == 0 then Some(([], data[1..]))
    else if data[0] == 1 then
      if |data| < 2 || (data[1] != 1 && data[1] != 2) then None
      else match DecodeStr(data[2..])
        case None => None
        case Some(p) => Some(([data[1] - 1] + p.0, p.1))
    else match DecodeStr(data[1..])
      case None => None
      case Some(p) => Some(([data[0]] + p.0, p.1))
  }

  /** decodeStrKey: an index loop over the escaped bytes. */
  method DecodeStrKey(data: Bytes) returns (r: Option<(Bytes, Bytes)>)
    ensures r == DecodeStr(data)
  {
    var s: Bytes := [];
    var i := 0;
    assert data[0..] == data && (DecodeStr(data).Some? ==> s + DecodeStr(data).value.0 == DecodeStr(data).value.0);
    while i < |data|
      invariant 0 <= i <= |data|
      invariant DecodeStr(data) == match DecodeStr(data[i..])
                                   case None => None
                                   case Some(p) => Some((s + p.0, p.1))
    {
      ghost var rest := data[i..];
      assert rest[1..] == data[i + 1..];
      match data[i] {
        case 0x00 =>
          assert s + [] == s;
          return Some((s, data[i + 1..]));
        case 0x01 =>
          if i + 1 >= |data| || (data[i + 1] != 0x01 && data[i + 1] != 0x02) {
            return None;
          }
          assert rest[2..] == data[i + 2..];
          AppendOne(s, data[i + 1] - 1, DecodeStr(data[i + 2..]));
          s := s + [data[i + 1] - 1];
          i := i + 1;
        case _ =>
          AppendOne(s, data[i], DecodeStr(data[i + 1..]));
          s := s + [data[i]];
      }
      i := i + 1;
    }
    assert data[|data|..] == [];
    return None;
  }

  lemma AppendOne(s: Bytes, ch: byte, r: Option<(Bytes, Bytes)>)
    ensures r.Some? ==> s + ([ch] + r.value.0) == (s + [ch]) + r.value.0
  {
  }

  lemma {:induction false} DecodeEscaped(s: Bytes, rest: Bytes)
    ensures DecodeStr(Escaped(s) + [0] + rest) == Some((s, rest))
  {
    var data := Escaped(s) + [0] + rest;
    if s == [] {
      assert data == [0] + rest && data[1..] == rest;
    } else {
      DecodeEscaped(s[1..], rest);
      var tail := Escaped(s[1..]) + [0] + rest;
      assert data == EscapeByte(s[0]) + tail;
      assert data[|EscapeByte(s[0])|..] == tail;
      assert s == [s[0]] + s[1..];
    }
  }

  function DecodeCellKey(t: CellType, data: Bytes): Option<(Cell, Bytes)> {
    if t.TypeI64? then
      if |data| < 8 then None
      else
        GetBEBound(data[..8]);
        Some((Cell(t, FromUnsigned(FlipSign(GetBE(data[..8]))), []), data[8..]))
    else match DecodeStr(data)
      case None => None
      case Some(p) => Some((Cell(t, 0, p.0), p.1))
  }

  lemma {:induction false} GetBELimit(b: Bytes)
    ensures GetBE(b) < Power256(|b|)
  {
    if b != [] { GetBELimit(b[..|b| - 1]); }
  }

  lemma GetBEBound(b: Bytes)
    requires |b| == 8
    ensures GetBE(b) < U64
  {
    GetBELimit(b);
    Width8();
  }

  /** The part of a cell that its type names; the rest is blank, as after a decode. */
  function Canon(c: Cell): Cell {
    if c.typ.TypeI64? then Cell(c.typ, c.num, []) else Cell(c.typ, 0, c.str)
  }

  lemma DecodeEncodedCell(c: Cell, rest: Bytes)
    ensures DecodeCellKey(c.typ, EncodeCellKey(c) + rest) == Some((Canon(c), rest))
  {
    if c.typ.TypeI64? {
      var u := FlipSign(ToUnsigned(c.num));
      Width8();
      GetPutBE(u, 8);
      var data := PutBE(u, 8) + rest;
      assert data[..8] == PutBE(u, 8) && data[8..] == rest;
    } else {
      DecodeEscaped(c.str, rest);
    }
  }

  // ---- exactly the encodings are decoded ----

  lemma {:induction false} PutGetBE(b: Bytes)
    ensures PutBE(GetBE(b), |b|) == b
  {
    if b != [] {
      PutGetBE(b[..|b| - 1]);
      assert b == b[..|b| - 1] + [b[|b| - 1]];
    }
  }

  lemma NumberBits(u: nat)
    requires u < U64
    ensures FlipSign(ToUnsigned(FromUnsigned(FlipSign(u)))) == u
  {
  }

  lemma {:induction false} DecodedIsEscaped(data: Bytes)
    ensures DecodeStr(data).Some? ==> data == Escaped(DecodeStr(data).value.0) + [0] + DecodeStr(data).value.1
    decreases |data|
  {
    hide Escaped;
    if data != [] && data[0] == 0 {
      EscapedEnd(data[1..]);
      assert data == [0] + data[1..];
    } else if |data| >= 2 && data[0] == 1 && (data[1] == 1 || data[1] == 2) {
      DecodedIsEscaped(data[2..]);
      assert data[..2] == EscapeByte(data[1] - 1);
      DecodedOne(data, 2, data[1] - 1);
    } else if data != [] && data[0] > 1 {
      DecodedIsEscaped(data[1..]);
      assert data[..1] == EscapeByte(data[0]);
      DecodedOne(data, 1, data[0]);
    }
  }

  lemma DecodedOne(data: Bytes, n: nat, ch: int)
    requires n <= |data| && 0 <= ch < 256 && data[..n] == EscapeByte(ch)
    ensures DecodeStr(data[n..]).Some? ==>
      var p := DecodeStr(data[n..]).value;
      data[n..] == Escaped(p.0) + [0] + p.1 ==> data == Escaped([ch] + p.0) + [0] + p.1
  {
    if DecodeStr(data[n..]).Some? {
      var p := DecodeStr(data[n..]).value;
      EscapedCons([ch] + p.0, p.1);
      assert ([ch] + p.0)[1..] == p.0;
      assert data == data[..n] + data[n..];
    }
  }

  /** A cell is read off the front exactly when its key code, and no other bytes, stands
      there. */
  lemma DecodedExactlyWhen(t: CellType, data: Bytes, c: Cell, rest: Bytes)
    ensures DecodeCellKey(t, data) == Some((c, rest)) <==>
      c.typ == t && c == Canon(c) && data == EncodeCellKey(c) + rest
  {
    if c.typ == t && c == Canon(c) && data == EncodeCellKey(c) + rest {
      DecodeEncodedCell(c, rest);
    }
    if DecodeCellKey(t, data) == Some((c, rest)) {
      if t.TypeI64? {
        GetBEBound(data[..8]);
        NumberBits(GetBE(data[..8]));
        PutGetBE(data[..8]);
        assert data == data[..8] + data[8..];
      } else {
        DecodedIsEscaped(data);
      }
    }
  }
}
