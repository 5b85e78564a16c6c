/** From key/value pairs to rows: which rows a range of a stored table yields. */
module Selection {
  import opened Bytes
  import opened Levels
  import opened RangeScan
  import opened KeyCodec
  import opened Rows
  import opened Expressions
  import opened Planner
  import opened PlannerLimits

  ghost predicate Encodes(s: Schema, row: Row, k: Bytes, v: Bytes)
    requires WellFormed(s)
  {
    Typed(s, row) && k == RowKey(s, row) && v == RowVal(s, row) && |k| + |v| < U32
  }

  /** Everything stored under the table's prefix is a row of the table, in a record
      whose lengths fit the log's 32 bits. */
  ghost predicate TableStored(s: Schema, m: map<Bytes, Bytes>)
    requires WellFormed(s)
  {
    forall k :: k in m && TablePrefix(s) <= k ==> exists row :: Encodes(s, row, k, m[k])
  }

  /** The table has this row, in the form in which decoding delivers it. */
  ghost predicate HasRow(s: Schema, m: map<Bytes, Bytes>, row: Row)
    requires WellFormed(s)
  {
    Typed(s, row) && row == CanonRow(row) && RowKey(s, row) in m && m[RowKey(s, row)] == RowVal(s, row)
  }

  // ---- canonical rows ----

  lemma {:induction false} CanonCols(a: seq<Cell>, b: seq<Cell>)
    requires |a| == |b| && forall i :: 0 <= i < |a| ==> b[i] == Canon(a[i])
    ensures EncodeCols(a) == EncodeCols(b)
  {
    if a != [] { CanonCols(a[1..], b[1..]); }
  }

  lemma CanonVal(c: Cell)
    ensures EncodeCellVal(Canon(c)) == EncodeCellVal(c)
  {
  }

  lemma {:induction false} SameVals(s: Schema, a: Row, b: Row, i: nat)
    requires i <= |s.cols| == |a| == |b|
    requires forall j :: 0 <= j < |a| ==> EncodeCellVal(a[j]) == EncodeCellVal(b[j])
    ensures EncodeValFrom(s, a, i) == EncodeValFrom(s, b, i)
    decreases |s.cols| - i
  {
    hide EncodeCellVal, IsPKey;
    if i < |s.cols| { SameVals(s, a, b, i + 1); }
  }

  lemma CanonSame(s: Schema, row: Row)
    requires WellFormed(s) && Typed(s, row)
    ensures Typed(s, CanonRow(row)) && CanonRow(CanonRow(row)) == CanonRow(row)
    ensures RowKey(s, CanonRow(row)) == RowKey(s, row) && RowVal(s, CanonRow(row)) == RowVal(s, row)
  {
    CanonCols(KeyCells(s, row), KeyCells(s, CanonRow(row)));
    forall i | 0 <= i < |row| ensures EncodeCellVal(CanonRow(row)[i]) == EncodeCellVal(row[i]) {
      CanonVal(row[i]);
    }
    hide EncodeCellVal, EncodeValFrom;
    SameVals(s, CanonRow(row), row, 0);
  }

  /** A stored pair of the table decodes to the one row it stands for. */
  lemma StoredPairDecodes(s: Schema, m: map<Bytes, Bytes>, k: Bytes)
    requires WellFormed(s) && TableStored(s, m) && k in m && TablePrefix(s) <= k
    ensures var d := DecodeRow(s, k, m[k]);
      d.Good? && HasRow(s, m, d.row) && RowKey(s, d.row) == k
  {
    var row :| Encodes(s, row, k, m[k]);
    RowReadsBack(s, row);
    CanonSame(s, row);
  }

  lemma HasRowDecodes(s: Schema, m: map<Bytes, Bytes>, row: Row)
    requires WellFormed(s) && TableStored(s, m) && HasRow(s, m, row)
    ensures TablePrefix(s) <= RowKey(s, row)
    ensures DecodeRow(s, RowKey(s, row), m[RowKey(s, row)]) == Good(row)
  {
    var k := RowKey(s, row);
    assert k == TablePrefix(s) + (EncodeCols(KeyCells(s, row)) + [0]);
    var r :| Encodes(s, r, k, m[k]);
    RowReadsBack(s, row);
  }

  // ---- rows of a scan ----

  /** The rows an iterator over these pairs shows: it stops at the first pair that
      is not a row of the table. */
  function RowsUntil(s: Schema, recs: Level): seq<Row>
    requires forall i :: 0 <= i < |s.pkey| ==> s.pkey[i] < |s.cols|
  {
    if recs == [] then []
    else match DecodeRow(s, recs[0].key, recs[0].val)
      case Good(row) => [row] + RowsUntil(s, recs[1..])
      case _ => []
  }

  ghost predicate Represents(l: Level, m: map<Bytes, Bytes>) {
    Sorted(l) && forall r :: r in l <==> !r.deleted && r.key in m && m[r.key] == r.val
  }

  lemma {:induction false} AllDecode(s: Schema, m: map<Bytes, Bytes>, recs: Level)
    requires WellFormed(s) && TableStored(s, m)
    requires forall r :: r in recs ==> r.key in m && m[r.key] == r.val && TablePrefix(s) <= r.key
    ensures var rows := RowsUntil(s, recs);
      |rows| == |recs| &&
      forall i :: 0 <= i < |rows| ==> HasRow(s, m, rows[i]) && RowKey(s, rows[i]) == recs[i].key
  {
    if recs != [] {
      assert recs[0] in recs;
      StoredPairDecodes(s, m, recs[0].key);
      AllDecode(s, m, recs[1..]);
      hide HasRow, RowKey, DecodeRow, TableStored, WellFormed;
      var rows := RowsUntil(s, recs);
      assert rows[1..] == RowsUntil(s, recs[1..]);
      forall i | 0 <= i < |rows| ensures HasRow(s, m, rows[i]) && RowKey(s, rows[i]) == recs[i].key {
        if i > 0 { assert rows[i] == rows[1..][i - 1] && recs[i] == recs[1..][i - 1]; }
      }
    }
  }

  /** The pairs a range visits. */
  ghost function Hits(s: Schema, l: Level, req: RangeReq): Level {
    Ascending(l, Rank(l, StartKey(s, req)), StopKey(s, req))
  }

  /** The rows the code collects for a range. */
  ghost function SelectRows(s: Schema, l: Level, req: RangeReq): seq<Row>
    requires WellFormed(s)
  {
    RowsUntil(s, Hits(s, l, req))
  }

  /** The rows it collects for a condition. */
  ghost function Matched(s: Schema, l: Level, cond: Option<Expr>): seq<Row>
    requires WellFormed(s)
  {
    if MakeRange(s, cond).None? then [] else SelectRows(s, l, MakeRange(s, cond).value)
  }

  /** Between two bounds of a table lie only keys of that table. */
  lemma IntervalStaysInTable(s: Schema, req: RangeReq, k: Bytes)
    requires InInterval(s, req, k)
    ensures TablePrefix(s) <= k
  {
    var a := EncodeCols(req.start) + if SuffixPositive(req.startCmp) then [0xff] else [];
    var b := EncodeCols(req.stop) + if SuffixPositive(req.stopCmp) then [0xff] else [];
    assert StartKey(s, req) == TablePrefix(s) + a && StopKey(s, req) == TablePrefix(s) + b;
    BetweenSharesPrefix(TablePrefix(s), a, b, k);
  }

  /** The first row's primary key comes before the second's in tuple order. */
  ghost predicate Before(s: Schema, a: Row, b: Row)
    requires WellFormed(s)
  {
    && |a| == |s.cols| && |b| == |s.cols| && SameTypes(KeyCells(s, a), KeyCells(s, b))
    && TupleLess(KeyCells(s, a), KeyCells(s, b))
  }

  /** Key order of rows is the tuple order of their primary keys. */
  lemma KeyOrderIsTupleOrder(s: Schema, a: Row, b: Row)
    requires WellFormed(s) && Typed(s, a) && Typed(s, b)
    ensures Less(RowKey(s, a), RowKey(s, b)) <==> Before(s, a, b)
  {
    var x, y := KeyCells(s, a), KeyCells(s, b);
    ColsOrder(x, y, [0], [0]);
    LessIrreflexive([0]);
    LessCommonPrefix(TablePrefix(s), EncodeCols(x) + [0], EncodeCols(y) + [0]);
    assert RowKey(s, a) == TablePrefix(s) + (EncodeCols(x) + [0]);
    assert RowKey(s, b) == TablePrefix(s) + (EncodeCols(y) + [0]);
  }

  /** A range yields exactly the stored rows whose keys lie in it, each once, in
      increasing order of their primary keys. */
  lemma SelectExact(s: Schema, m: map<Bytes, Bytes>, l: Level, req: RangeReq)
    requires WellFormed(s) && TableStored(s, m) && Represents(l, m)
    ensures var rows := SelectRows(s, l, req);
      && (forall row :: row in rows <==> HasRow(s, m, row) && InInterval(s, req, RowKey(s, row)))
      && (forall i :: 0 <= i < |rows| ==> HasRow(s, m, rows[i]))
      && (forall i, j :: 0 <= i < j < |rows| ==> Before(s, rows[i], rows[j]))
  {
    hide RowKey, RowVal, DecodeRow, Ascending, Before;
    var start, stop := StartKey(s, req), StopKey(s, req);
    var recs := Hits(s, l, req);
    var rows := SelectRows(s, l, req);
    AscendingExact(l, start, stop);
    forall r | r in recs ensures r.key in m && m[r.key] == r.val && TablePrefix(s) <= r.key {
      IntervalStaysInTable(s, req, r.key);
    }
    AllDecode(s, m, recs);
    forall i, j | 0 <= i < j < |rows| ensures Before(s, rows[i], rows[j]) {
      KeyOrderIsTupleOrder(s, rows[i], rows[j]);
    }
    forall row ensures row in rows <==> HasRow(s, m, row) && InInterval(s, req, RowKey(s, row)) {
      if row in rows {
        var i :| 0 <= i < |rows| && rows[i] == row;
        assert recs[i] in recs;
      }
      if HasRow(s, m, row) && InInterval(s, req, RowKey(s, row)) {
        FoundAmong(s, m, l, recs, start, stop, row);
      }
    }
  }

  lemma FoundAmong(s: Schema, m: map<Bytes, Bytes>, l: Level, recs: Level, start: Bytes, stop: Bytes, row: Row)
    requires WellFormed(s) && TableStored(s, m) && Represents(l, m) && HasRow(s, m, row)
    requires Within(Record(RowKey(s, row), RowVal(s, row), false), start, stop)
    requires forall r :: r in recs <==> r in l && Within(r, start, stop)
    requires |RowsUntil(s, recs)| == |recs|
    ensures row in RowsUntil(s, recs)
  {
    hide RowKey, RowVal, DecodeRow;
    HasRowDecodes(s, m, row);
    var r := Record(RowKey(s, row), RowVal(s, row), false);
    assert r in recs;
    var i :| 0 <= i < |recs| && recs[i] == r;
    RowsAt(s, recs, i);
  }

  lemma {:induction false} RowsAt(s: Schema, recs: Level, i: nat)
    requires WellFormed(s) && i < |recs| && |RowsUntil(s, recs)| == |recs|
    ensures DecodeRow(s, recs[i].key, recs[i].val) == Good(RowsUntil(s, recs)[i])
  {
    hide DecodeRow;
    assert DecodeRow(s, recs[0].key, recs[0].val).Good?;
    assert RowsUntil(s, recs)[1..] == RowsUntil(s, recs[1..]);
    if i > 0 {
      RowsAt(s, recs[1..], i - 1);
      assert RowsUntil(s, recs)[i] == RowsUntil(s, recs[1..])[i - 1];
    }
  }

  /** The meaning of an optional WHERE clause. */
  predicate Selected(s: Schema, row: Row, cond: Option<Expr>)
    requires |row| == |s.cols|
  {
    cond.None? || Holds(s, row, cond.value)
  }

  /** The planner accepts the condition and plans it right. */
  predicate Plannable(s: Schema, cond: Option<Expr>)
    requires WellFormed(s)
  {
    MakeRange(s, cond).Some? && (cond.Some? ==> PlannedRight(s, cond.value))
  }

  /** `rows` are exactly the table's rows on which the condition holds, each once,
      in primary-key order. */
  ghost predicate Answers(s: Schema, m: map<Bytes, Bytes>, cond: Option<Expr>, rows: seq<Row>)
    requires WellFormed(s)
  {
    && (forall row :: row in rows <==> HasRow(s, m, row) && Selected(s, row, cond))
    && (forall i :: 0 <= i < |rows| ==> HasRow(s, m, rows[i]) && Selected(s, rows[i], cond))
    && (forall i, j :: 0 <= i < j < |rows| ==> Before(s, rows[i], rows[j]))
  }

  /** The query theorem: for every condition the planner accepts and plans right, the
      rows collected are exactly the table's rows on which the condition holds, each
      once, in primary-key order. */
  lemma QueryIsExact(s: Schema, m: map<Bytes, Bytes>, l: Level, cond: Option<Expr>)
    requires WellFormed(s) && TableStored(s, m) && Represents(l, m) && Plannable(s, cond)
    ensures Answers(s, m, cond, SelectRows(s, l, MakeRange(s, cond).value))
  {
    hide SelectRows, InInterval, HasRow, Selected, Before, TableStored, Represents, Answers, StartKey, StopKey;
    var req := MakeRange(s, cond).value;
    SelectExact(s, m, l, req);
    hide MakeRange, RowKey, WellFormed;
    forall row | HasRow(s, m, row)
      ensures |row| == |s.cols| && (InInterval(s, req, RowKey(s, row)) <==> Selected(s, row, cond))
    {
      HasRowIsTyped(s, m, row);
      SelectedMeansInterval(s, cond, row);
    }
    AnswersWhen(s, m, cond, req, SelectRows(s, l, req));
  }

  lemma HasRowIsTyped(s: Schema, m: map<Bytes, Bytes>, row: Row)
    requires WellFormed(s) && HasRow(s, m, row)
    ensures Typed(s, row)
  {
  }

  lemma AnswersWhen(s: Schema, m: map<Bytes, Bytes>, cond: Option<Expr>, req: RangeReq, rows: seq<Row>)
    requires WellFormed(s)
    requires forall row :: row in rows <==> HasRow(s, m, row) && InInterval(s, req, RowKey(s, row))
    requires forall i :: 0 <= i < |rows| ==> HasRow(s, m, rows[i])
    requires forall i, j :: 0 <= i < j < |rows| ==> Before(s, rows[i], rows[j])
    requires forall row :: HasRow(s, m, row) ==> (InInterval(s, req, RowKey(s, row)) <==> Selected(s, row, cond))
    ensures Answers(s, m, cond, rows)
  {
    hide InInterval, RowKey, Selected, Before, WellFormed;
    forall i | 0 <= i < |rows| ensures Selected(s, rows[i], cond) {
      assert rows[i] in rows;
    }
  }

  lemma FullScanPlan(s: Schema, row: Row)
    requires WellFormed(s) && Typed(s, row)
    ensures MakeRange(s, None).Some? && InInterval(s, MakeRange(s, None).value, RowKey(s, row))
  {
    FullScanCovers(s, row);
  }

  lemma SelectedMeansInterval(s: Schema, cond: Option<Expr>, row: Row)
    requires WellFormed(s) && Typed(s, row) && Plannable(s, cond)
    ensures InInterval(s, MakeRange(s, cond).value, RowKey(s, row)) <==> Selected(s, row, cond)
  {
    hide PlannedRight, Holds, InInterval, MakeRange;
    match cond
    case None => FullScanPlan(s, row);
    case Some(e) => PlanIsRightExactlyWhen(s, e);
  }

  /** Rows of the table, no two with the same key. */
  ghost predicate StoredRows(s: Schema, m: map<Bytes, Bytes>, rows: seq<Row>)
    requires WellFormed(s)
  {
    && (forall i :: 0 <= i < |rows| ==> HasRow(s, m, rows[i]))
    && (forall i, j :: 0 <= i < j < |rows| ==> RowKey(s, rows[i]) != RowKey(s, rows[j]))
  }

  /** Whatever the planner makes of the condition, the rows collected are rows of the
      table, no two with the same key. */
  lemma MatchedRows(s: Schema, m: map<Bytes, Bytes>, l: Level, cond: Option<Expr>)
    requires WellFormed(s) && TableStored(s, m) && Represents(l, m)
    ensures StoredRows(s, m, Matched(s, l, cond))
  {
    hide RowKey, RowVal, SelectRows, MakeRange, TableStored, Represents, Before;
    if MakeRange(s, cond).Some? {
      SelectExact(s, m, l, MakeRange(s, cond).value);
      var rows := Matched(s, l, cond);
      forall i, j | 0 <= i < j < |rows| ensures RowKey(s, rows[i]) != RowKey(s, rows[j]) {
        KeyOrderIsTupleOrder(s, rows[i], rows[j]);
        LessIrreflexive(RowKey(s, rows[i]));
      }
    }
  }

  /** The first pair visited does not decode. */
  predicate StartsCorrupt(s: Schema, recs: Level)
    requires forall i :: 0 <= i < |s.pkey| ==> s.pkey[i] < |s.cols|
  {
    recs != [] && DecodeRow(s, recs[0].key, recs[0].val).Corrupt?
  }

  lemma NothingIsCorrupt(s: Schema, m: map<Bytes, Bytes>, l: Level, req: RangeReq)
    requires WellFormed(s) && TableStored(s, m) && Represents(l, m)
    ensures !StartsCorrupt(s, Hits(s, l, req))
  {
    hide DecodeRow, StartKey, StopKey, TableStored, Ascending;
    var recs := Hits(s, l, req);
    AscendingExact(l, StartKey(s, req), StopKey(s, req));
    if recs != [] {
      assert recs[0] in recs;
      IntervalStaysInTable(s, req, recs[0].key);
      StoredPairDecodes(s, m, recs[0].key);
    }
  }
}
