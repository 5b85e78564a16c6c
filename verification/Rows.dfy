/** Rows as key/value pairs, and the byte bounds of a range over a key prefix. */
module Rows {
  import opened Bytes
  import opened KeyCodec
  import LE = LittleEndian

  datatype Column = Column(name: Bytes, typ: CellType)

  datatype Schema = Schema(table: Bytes, cols: seq<Column>, pkey: seq<nat>)

  type Row = seq<Cell>

  /** Key columns are columns, no two columns or key columns coincide, and the
      table name (an identifier) has no 0x00. */
  ghost predicate WellFormed(s: Schema) {
    && 0 !in s.table
    && (forall i :: 0 <= i < |s.pkey| ==> s.pkey[i] < |s.cols|)
    && (forall i, j :: 0 <= i < j < |s.pkey| ==> s.pkey[i] != s.pkey[j])
    && (forall i, j :: 0 <= i < j < |s.cols| ==> s.cols[i].name != s.cols[j].name)
  }

  ghost predicate Typed(s: Schema, row: Row) {
    |row| == |s.cols| && forall i :: 0 <= i < |row| ==> row[i].typ == s.cols[i].typ
  }

  predicate IsPKey(s: Schema, i: nat) {
    i in s.pkey
  }

  ghost function KeyCells(s: Schema, row: Row): (r: seq<Cell>)
    requires WellFormed(s) && |row| == |s.cols|
    ensures |r| == |s.pkey| && forall i :: 0 <= i < |r| ==> r[i] == row[s.pkey[i]]
  {
    seq(|s.pkey|, i requires 0 <= i < |s.pkey| => row[s.pkey[i]])
  }

  // ---- keys ----

  function TablePrefix(s: Schema): Bytes {
    s.table + [0]
  }

  /** The KV key of a row. The trailing 0x00 keeps a full key behind every bound
      that is its own prefix. */
  ghost function RowKey(s: Schema, row: Row): Bytes
    requires WellFormed(s) && |row| == |s.cols|
  {
    TablePrefix(s) + EncodeCols(KeyCells(s, row)) + [0]
  }

  /** A bound over the first columns of the primary key, padded with 0xff for
      +infinity or with nothing for -infinity. */
  function EncodeKeyPrefix(s: Schema, prefix: seq<Cell>, positive: bool): Bytes {
    TablePrefix(s) + EncodeCols(prefix) + if positive then [0xff] else []
  }

  /** Row.EncodeKey, column by column. */
  method EncodeKey(s: Schema, row: Row) returns (key: Bytes)
    requires WellFormed(s) && |row| == |s.cols|
    ensures key == RowKey(s, row)
  {
    ghost var cells := KeyCells(s, row);
    key := TablePrefix(s);
    var i := 0;
    assert cells[0..] == cells;
    while i < |s.pkey|
      invariant 0 <= i <= |s.pkey|
      invariant key + EncodeCols(cells[i..]) == TablePrefix(s) + EncodeCols(cells)
    {
      var c := row[s.pkey[i]];
      assert cells[i..][1..] == cells[i + 1..];
      assert key + ([TypeTag(c.typ)] + EncodeCellKey(c) + EncodeCols(cells[i + 1..]))
          == (key + [TypeTag(c.typ)] + EncodeCellKey(c)) + EncodeCols(cells[i + 1..]);
      key := key + [TypeTag(c.typ)];
      key := key + EncodeCellKey(c);
      i := i + 1;
    }
    assert key == TablePrefix(s) + EncodeCols(cells) by { assert cells[i..] == []; }
    key := key + [0];
  }

  /** The first `n` key columns of a row. */
  ghost function KeyPrefix(s: Schema, row: Row, n: nat): (r: seq<Cell>)
    requires WellFormed(s) && |row| == |s.cols| && n <= |s.pkey|
    ensures |r| == n
  {
    KeyCells(s, row)[..n]
  }

  ghost predicate IsKeyPrefix(s: Schema, prefix: seq<Cell>)
    requires WellFormed(s)
  {
    |prefix| <= |s.pkey| && forall i :: 0 <= i < |prefix| ==> prefix[i].typ == s.cols[s.pkey[i]].typ
  }

  lemma {:induction false} EncodeColsConcat(a: seq<Cell>, b: seq<Cell>)
    ensures EncodeCols(a + b) == EncodeCols(a) + EncodeCols(b)
  {
    if a == [] {
      assert a + b == b;
    } else {
      assert (a + b)[1..] == a[1..] + b;
      EncodeColsConcat(a[1..], b);
    }
  }

  /** What follows a key prefix inside a row key: another column's tag or the
      closing 0x00, never 0xff and never nothing. */
  lemma KeyTail(s: Schema, row: Row, n: nat) returns (tail: Bytes)
    requires WellFormed(s) && |row| == |s.cols| && n <= |s.pkey|
    ensures RowKey(s, row) == TablePrefix(s) + (EncodeCols(KeyPrefix(s, row, n)) + tail)
    ensures tail != [] && tail[0] <= 2
  {
    hide EncodeCols;
    var cells := KeyCells(s, row);
    tail := EncodeCols(cells[n..]) + [0];
    TailByte(cells[n..]);
    assert cells == cells[..n] + cells[n..];
    EncodeColsConcat(cells[..n], cells[n..]);
    Regroup(TablePrefix(s), EncodeCols(cells[..n]), EncodeCols(cells[n..]), [0]);
  }

  lemma TailByte(cells: seq<Cell>)
    ensures (EncodeCols(cells) + [0])[0] <= 2
  {
  }

  lemma Regroup(p: Bytes, a: Bytes, b: Bytes, z: Bytes)
    ensures p + (a + b) + z == p + (a + (b + z))
  {
  }

  lemma PrefixTypes(s: Schema, row: Row, prefix: seq<Cell>)
    requires WellFormed(s) && Typed(s, row) && IsKeyPrefix(s, prefix)
    ensures SameTypes(KeyPrefix(s, row, |prefix|), prefix) && SameTypes(prefix, KeyPrefix(s, row, |prefix|))
  {
  }

  /** The sentinel theorem: against the bound padded with -infinity a row key is at
      or above exactly when its prefix is >=, against the one padded with +infinity
      exactly when its prefix is >; and a row key never equals a bound. */
  lemma SentinelBound(s: Schema, row: Row, prefix: seq<Cell>)
    requires WellFormed(s) && Typed(s, row) && IsKeyPrefix(s, prefix)
    ensures SameTypes(KeyPrefix(s, row, |prefix|), prefix) && SameTypes(prefix, KeyPrefix(s, row, |prefix|))
    ensures var q, k := KeyPrefix(s, row, |prefix|), RowKey(s, row);
      && (AtMost(EncodeKeyPrefix(s, prefix, false), k) <==> !TupleLess(q, prefix))
      && (AtMost(k, EncodeKeyPrefix(s, prefix, false)) <==> TupleLess(q, prefix))
      && (AtMost(EncodeKeyPrefix(s, prefix, true), k) <==> TupleLess(prefix, q))
      && (AtMost(k, EncodeKeyPrefix(s, prefix, true)) <==> !TupleLess(prefix, q))
  {
    hide TupleLess, TupleEq, EncodeCols, Less, WellFormed;
    PrefixTypes(s, row, prefix);
    var q, k := KeyPrefix(s, row, |prefix|), RowKey(s, row);
    var tail := KeyTail(s, row, |prefix|);
    TupleTrichotomy(q, prefix);
    TupleTrichotomy(prefix, q);
    EqSymmetric(q, prefix);
    BoundOrder(s, q, tail, prefix, []);
    BoundOrder(s, q, tail, prefix, [0xff]);
    assert TablePrefix(s) + (EncodeCols(prefix) + []) == EncodeKeyPrefix(s, prefix, false);
    assert TablePrefix(s) + (EncodeCols(prefix) + [0xff]) == EncodeKeyPrefix(s, prefix, true);
  }

  lemma EqSymmetric(a: seq<Cell>, b: seq<Cell>)
    requires SameTypes(a, b)
    ensures SameTypes(b, a) && (TupleEq(a, b) <==> TupleEq(b, a))
  {
  }

  lemma BoundOrder(s: Schema, q: seq<Cell>, tail: Bytes, prefix: seq<Cell>, pad: Bytes)
    requires SameTypes(q, prefix) && tail != [] && tail[0] <= 2 && (pad == [] || pad == [0xff])
    ensures var k, b := TablePrefix(s) + (EncodeCols(q) + tail), TablePrefix(s) + (EncodeCols(prefix) + pad);
      && (AtMost(k, b) <==> TupleLess(q, prefix) || (TupleEq(q, prefix) && pad != []))
      && (AtMost(b, k) <==> TupleLess(prefix, q) || (TupleEq(q, prefix) && pad == []))
  {
    var k, b := TablePrefix(s) + (EncodeCols(q) + tail), TablePrefix(s) + (EncodeCols(prefix) + pad);
    EqSymmetric(q, prefix);
    LessCommonPrefix(TablePrefix(s), EncodeCols(q) + tail, EncodeCols(prefix) + pad);
    LessCommonPrefix(TablePrefix(s), EncodeCols(prefix) + pad, EncodeCols(q) + tail);
    ColsOrder(q, prefix, tail, pad);
    ColsOrder(prefix, q, pad, tail);
    if k == b {
      LessIrreflexive(k);
      TupleTrichotomy(q, prefix);
    }
  }

  // ---- tables do not mix ----

  /** A key between two bounds of a table starts with that table's prefix. */
  lemma {:induction false} BetweenSharesPrefix(p: Bytes, a: Bytes, b: Bytes, k: Bytes)
    requires AtMost(p + a, k) && AtMost(k, p + b)
    ensures p <= k
  {
    if p != [] {
      assert (p + a)[0] == p[0] == (p + b)[0];
      assert k != [];
      assert (p + a)[1..] == p[1..] + a && (p + b)[1..] == p[1..] + b;
      BetweenSharesPrefix(p[1..], a, b, k[1..]);
      assert k == [k[0]] + k[1..] && p == [p[0]] + p[1..];
    }
  }

  lemma PrefixHasZero(t: Bytes, u: Bytes)
    ensures t + [0] <= u ==> 0 in u
  {
    if t + [0] <= u { assert u[|t|] == 0; }
  }

  /** No key of another table starts with this table's prefix, and no key without
      a 0x00 does: catalog keys are names behind a fixed marker. */
  lemma PrefixIsExclusive(t: Bytes, u: Bytes, rest: Bytes)
    requires 0 !in t && 0 !in u
    ensures t + [0] <= u + [0] + rest <==> t == u
    ensures !(t + [0] <= u)
  {
    PrefixHasZero(t, u);
    var k := u + [0] + rest;
    if t + [0] <= k {
      assert k[|t|] == (t + [0])[|t|] == 0 && k[|u|] == 0;
      assert forall i :: 0 <= i < |u| ==> k[i] == u[i] && k[i] != 0;
      assert forall i :: 0 <= i < |t| ==> k[i] == (t + [0])[i] == t[i] && k[i] != 0;
    }
  }

  /** The bounds of a full scan enclose every row key of the table. */
  lemma FullScanCovers(s: Schema, row: Row)
    requires WellFormed(s) && Typed(s, row)
    ensures AtMost(EncodeKeyPrefix(s, [], false), RowKey(s, row))
    ensures AtMost(RowKey(s, row), EncodeKeyPrefix(s, [], true))
  {
    SentinelBound(s, row, []);
  }

  // ---- values ----

  function EncodeCellVal(c: Cell): Bytes {
    if c.typ.TypeI64? then LE.Put(ToUnsigned(c.num), 8) else LE.Put(|c.str|, 4) + c.str
  }

  function DecodeCellVal(t: CellType, data: Bytes): Option<(Cell, Bytes)> {
    if t.TypeI64? then
      if |data| < 8 then None
      else
        LE.GetBound(data[..8]);
        LE.Widths();
        Some((Cell(t, FromUnsigned(LE.Get(data[..8])), []), data[8..]))
    else if |data| < 4 then None
    else
      var n, body := LE.Get(data[..4]), data[4..];
      if |body| % U32 < n then None else Some((Cell(t, 0, body[..n]), body[n..]))
  }

  lemma DecodeEncodedVal(c: Cell, rest: Bytes)
    requires |c.str| < U32 && |c.str| + |rest| < U32
    ensures DecodeCellVal(c.typ, EncodeCellVal(c) + rest) == Some((Canon(c), rest))
  {
    LE.Widths();
    var data := EncodeCellVal(c) + rest;
    if c.typ.TypeI64? {
      LE.GetPut(ToUnsigned(c.num), 8);
      assert data[..8] == EncodeCellVal(c) && data[8..] == rest;
    } else {
      LE.GetPut(|c.str|, 4);
      assert data[..4] == LE.Put(|c.str|, 4) && data[4..] == c.str + rest;
      assert (c.str + rest)[..|c.str|] == c.str && (c.str + rest)[|c.str|..] == rest;
    }
  }

  lemma SameBits(u: nat)
    requires u < U64
    ensures ToUnsigned(FromUnsigned(u)) == u
  {
  }

  /** A value is read off the front exactly when its code stands there; a string code,
      when the bytes behind its length, counted in 32 bits, are enough. */
  lemma DecodedValExactlyWhen(t: CellType, data: Bytes, c: Cell, rest: Bytes)
    ensures DecodeCellVal(t, data) == Some((c, rest)) <==>
      && c.typ == t && c == Canon(c) && data == EncodeCellVal(c) + rest
      && (t.TypeStr? ==> |c.str| < U32 && |c.str| <= (|c.str| + |rest|) % U32)
  {
    LE.Widths();
    if c.typ == t && c == Canon(c) && data == EncodeCellVal(c) + rest {
      if t.TypeI64? {
        LE.GetPut(ToUnsigned(c.num), 8);
        assert data[..8] == EncodeCellVal(c) && data[8..] == rest;
      } else if |c.str| < U32 {
        LE.GetPut(|c.str|, 4);
        assert data[..4] == LE.Put(|c.str|, 4) && data[4..] == c.str + rest;
      }
    }
    if DecodeCellVal(t, data) == Some((c, rest)) {
      ValueIsWritten(t, data, c, rest);
    }
  }

  lemma ValueIsWritten(t: CellType, data: Bytes, c: Cell, rest: Bytes)
    requires DecodeCellVal(t, data) == Some((c, rest))
    ensures c.typ == t && c == Canon(c) && data == EncodeCellVal(c) + rest
    ensures t.TypeStr? ==> |c.str| < U32 && |c.str| <= (|c.str| + |rest|) % U32
  {
    LE.Widths();
    if t.TypeI64? {
      LE.GetBound(data[..8]);
      SameBits(LE.Get(data[..8]));
      LE.PutGet(data[..8]);
      assert data == data[..8] + data[8..];
    } else {
      LE.GetBound(data[..4]);
      LE.PutGet(data[..4]);
      assert data == data[..4] + data[4..];
      assert data[4..] == c.str + rest;
    }
  }

  /** The non-key columns from column `i` on. */
  function EncodeValFrom(s: Schema, row: Row, i: nat): Bytes
    requires i <= |s.cols| == |row|
    decreases |s.cols| - i
  {
    if i == |s.cols| then []
    else (if IsPKey(s, i) then [] else EncodeCellVal(row[i])) + EncodeValFrom(s, row, i + 1)
  }

  function RowVal(s: Schema, row: Row): Bytes
    requires |s.cols| == |row|
  {
    EncodeValFrom(s, row, 0)
  }

  /** Row.EncodeVal, column by column. */
  method EncodeVal(s: Schema, row: Row) returns (val: Bytes)
    requires |s.cols| == |row|
    ensures val == RowVal(s, row)
  {
    hide EncodeCellVal;
    val := [];
    var i := 0;
    while i < |s.cols|
      invariant 0 <= i <= |s.cols|
      invariant val + EncodeValFrom(s, row, i) == RowVal(s, row)
    {
      if !IsPKey(s, i) {
        val := val + EncodeCellVal(row[i]);
      }
      i := i + 1;
    }
  }

  // ---- decoding a row ----

  datatype Decoded = OutOfRange | Corrupt | Good(row: Row)

  const BLANK_CELL := Cell(TypeI64, 0, [])

  function NewRow(s: Schema): Row {
    seq(|s.cols|, i => BLANK_CELL)
  }

  function DecodeKeyFrom(s: Schema, row: Row, k: nat, rest: Bytes): (r: Option<Row>)
    requires k <= |s.pkey| && |row| == |s.cols| && forall i :: 0 <= i < |s.pkey| ==> s.pkey[i] < |s.cols|
    ensures r.Some? ==> |r.value| == |s.cols|
    decreases |s.pkey| - k
  {
    if k == |s.pkey| then Some(row)
    else if rest == [] then None
    else match DecodeCellKey(s.cols[s.pkey[k]].typ, rest[1..])
      case None => None
      case Some(p) => DecodeKeyFrom(s, row[s.pkey[k] := p.0], k + 1, p.1)
  }

  function DecodeValFrom(s: Schema, row: Row, i: nat, rest: Bytes): Option<Row>
    requires i <= |s.cols| == |row|
    decreases |s.cols| - i
  {
    if i == |s.cols| then Some(row)
    else if IsPKey(s, i) then DecodeValFrom(s, row, i + 1, rest)
    else match DecodeCellVal(s.cols[i].typ, rest)
      case None => None
      case Some(p) => DecodeValFrom(s, row[i := p.0], i + 1, p.1)
  }

  function DecodeRow(s: Schema, key: Bytes, val: Bytes): (d: Decoded)
    requires forall i :: 0 <= i < |s.pkey| ==> s.pkey[i] < |s.cols|
  {
    var prefix := TablePrefix(s);
    if !(prefix <= key) then OutOfRange
    else match DecodeKeyFrom(s, NewRow(s), 0, key[|prefix|..])
      case None => Corrupt
      case Some(row) => match DecodeValFrom(s, row, 0, val)
        case None => Corrupt
        case Some(r) => Good(r)
  }

  /** A key of another table ends a scan without an error, and no other key does. */
  lemma OutOfRangeExactlyWhen(s: Schema, key: Bytes, val: Bytes)
    requires forall i :: 0 <= i < |s.pkey| ==> s.pkey[i] < |s.cols|
    ensures DecodeRow(s, key, val) == OutOfRange <==> !(s.table + [0] <= key)
  {
    hide DecodeKeyFrom, DecodeValFrom;
  }

  /** Row.DecodeKey: fills the primary-key cells of the row. */
  method DecodeKey(s: Schema, row: array<Cell>, key: Bytes) returns (inRange: bool, ok: bool)
    requires row.Length == |s.cols| && forall i :: 0 <= i < |s.pkey| ==> s.pkey[i] < |s.cols|
    modifies row
    ensures inRange <==> TablePrefix(s) <= key
    ensures inRange ==>
      var r := DecodeKeyFrom(s, old(row[..]), 0, key[|TablePrefix(s)|..]);
      ok == r.Some? && (ok ==> row[..] == r.value)
  {
    hide DecodeCellKey;
    var prefix := TablePrefix(s);
    if !(prefix <= key) {
      return false, false;
    }
    var rest := key[|prefix|..];
    ghost var spec := DecodeKeyFrom(s, row[..], 0, rest);
    var k := 0;
    while k < |s.pkey|
      invariant 0 <= k <= |s.pkey| && spec == DecodeKeyFrom(s, row[..], k, rest)
    {
      if rest == [] {
        return true, false;
      }
      var idx := s.pkey[k];
      var cell := DecodeCellKey(s.cols[idx].typ, rest[1..]);
      if cell.None? {
        return true, false;
      }
      assert row[..][idx := cell.value.0] == row[..idx] + [cell.value.0] + row[idx + 1..];
      row[idx] := cell.value.0;
      rest := cell.value.1;
      k := k + 1;
    }
    return true, true;
  }

  /** Row.DecodeVal: fills the other cells. */
  method DecodeVal(s: Schema, row: array<Cell>, val: Bytes) returns (ok: bool)
    requires row.Length == |s.cols|
    modifies row
    ensures var r := DecodeValFrom(s, old(row[..]), 0, val);
      ok == r.Some? && (ok ==> row[..] == r.value)
  {
    hide DecodeCellVal;
    var rest := val;
    ghost var spec := DecodeValFrom(s, row[..], 0, val);
    var i := 0;
    while i < |s.cols|
      invariant 0 <= i <= |s.cols| && spec == DecodeValFrom(s, row[..], i, rest)
    {
      if !IsPKey(s, i) {
        var cell := DecodeCellVal(s.cols[i].typ, rest);
        if cell.None? {
          return false;
        }
        assert row[..][i := cell.value.0] == row[..i] + [cell.value.0] + row[i + 1..];
        row[i] := cell.value.0;
        rest := cell.value.1;
      }
      i := i + 1;
    }
    return true;
  }

  /** A fresh row filled from a pair. */
  method ReadRow(s: Schema, key: Bytes, val: Bytes) returns (d: Decoded)
    requires forall i :: 0 <= i < |s.pkey| ==> s.pkey[i] < |s.cols|
    ensures d == DecodeRow(s, key, val)
  {
    hide DecodeKeyFrom, DecodeValFrom;
    var row := new Cell[|s.cols|](i => BLANK_CELL);
    assert row[..] == NewRow(s);
    var inRange, keyOk := DecodeKey(s, row, key);
    if !inRange {
      return OutOfRange;
    }
    if !keyOk {
      return Corrupt;
    }
    var valOk := DecodeVal(s, row, val);
    return if valOk then Good(row[..]) else Corrupt;
  }

  ghost function CanonRow(row: Row): (r: Row)
    ensures |r| == |row| && forall i :: 0 <= i < |row| ==> r[i] == Canon(row[i])
  {
    seq(|row|, i requires 0 <= i < |row| => Canon(row[i]))
  }

  /** The key columns from position `k` on are read back into their places. */
  lemma {:induction false} KeyReadsBack(s: Schema, row: Row, into: Row, k: nat, rest: Bytes)
    requires WellFormed(s) && Typed(s, row) && k <= |s.pkey| && |into| == |row|
    requires forall j :: 0 <= j < k ==> into[s.pkey[j]] == Canon(row[s.pkey[j]])
    ensures var r := DecodeKeyFrom(s, into, k, EncodeCols(KeyCells(s, row)[k..]) + rest);
      r.Some? && |r.value| == |row| &&
      forall i :: 0 <= i < |s.cols| && IsPKey(s, i) ==> r.value[i] == Canon(row[i])
    decreases |s.pkey| - k
  {
    hide EncodeCellKey, DecodeCellKey, Canon;
    if k < |s.pkey| {
      var cells := KeyCells(s, row);
      var c := cells[k];
      var tail := EncodeCols(cells[k + 1..]) + rest;
      var data := EncodeCols(cells[k..]) + rest;
      assert cells[k..][1..] == cells[k + 1..];
      assert data == [TypeTag(c.typ)] + (EncodeCellKey(c) + tail);
      assert data[1..] == EncodeCellKey(c) + tail;
      DecodeEncodedCell(c, tail);
      KeyReadsBack(s, row, into[s.pkey[k] := Canon(c)], k + 1, rest);
    }
  }

  /** The other columns are read back, the key columns left alone. */
  lemma {:induction false} ValReadsBack(s: Schema, row: Row, into: Row, i: nat)
    requires Typed(s, row) && |into| == |row| && i <= |row| && |EncodeValFrom(s, row, i)| < U32
    requires forall j :: 0 <= j < |row| && (j < i || IsPKey(s, j)) ==> into[j] == Canon(row[j])
    ensures DecodeValFrom(s, into, i, EncodeValFrom(s, row, i)) == Some(CanonRow(row))
    decreases |row| - i
  {
    hide EncodeCellVal, DecodeCellVal;
    if i == |row| {
      assert into == CanonRow(row);
    } else if IsPKey(s, i) {
      assert EncodeValFrom(s, row, i) == EncodeValFrom(s, row, i + 1);
      ValReadsBack(s, row, into, i + 1);
    } else {
      var rest := EncodeValFrom(s, row, i + 1);
      ValueReadsBack(row[i], rest);
      ValReadsBack(s, row, into[i := Canon(row[i])], i + 1);
    }
  }

  lemma ValueReadsBack(c: Cell, rest: Bytes)
    requires |EncodeCellVal(c) + rest| < U32
    ensures DecodeCellVal(c.typ, EncodeCellVal(c) + rest) == Some((Canon(c), rest))
  {
    if c.typ.TypeI64? {
      DecodeEncodedVal(c.(str := []), rest);
    } else {
      DecodeEncodedVal(c, rest);
    }
  }

  /** The row round trip. */
  lemma RowReadsBack(s: Schema, row: Row)
    requires WellFormed(s) && Typed(s, row) && |RowVal(s, row)| < U32
    ensures DecodeRow(s, RowKey(s, row), RowVal(s, row)) == Good(CanonRow(row))
  {
    hide EncodeCols, DecodeKeyFrom, DecodeValFrom, EncodeValFrom;
    var key := RowKey(s, row);
    assert key[|TablePrefix(s)|..] == EncodeCols(KeyCells(s, row)) + [0];
    assert KeyCells(s, row)[0..] == KeyCells(s, row);
    KeyReadsBack(s, row, NewRow(s), 0, [0]);
    var r := DecodeKeyFrom(s, NewRow(s), 0, key[|TablePrefix(s)|..]).value;
    ValReadsBack(s, row, r, 0);
  }

  /** Two rows share a KV key exactly when their primary keys are equal. */
  lemma KeyIsInjective(s: Schema, a: Row, b: Row)
    requires WellFormed(s) && Typed(s, a) && Typed(s, b)
    ensures SameTypes(KeyCells(s, a), KeyCells(s, b))
    ensures RowKey(s, a) == RowKey(s, b) <==> TupleEq(KeyCells(s, a), KeyCells(s, b))
  {
    var x, y := KeyCells(s, a), KeyCells(s, b);
    if RowKey(s, a) == RowKey(s, b) {
      var n := |TablePrefix(s)|;
      assert RowKey(s, a)[n..] == EncodeCols(x) + [0] && RowKey(s, b)[n..] == EncodeCols(y) + [0];
      ColsInjective(x, y, [0], [0]);
    }
    if TupleEq(x, y) { SameColsSameBytes(x, y); }
  }

  lemma {:induction false} SameColsSameBytes(a: seq<Cell>, b: seq<Cell>)
    requires SameTypes(a, b) && TupleEq(a, b)
    ensures EncodeCols(a) == EncodeCols(b)
  {
    if a != [] {
      TupleEqCons(a, b);
      SameColsSameBytes(a[1..], b[1..]);
    }
  }
}
