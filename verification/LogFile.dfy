/** The write-ahead log: its record format and its replay, byte for byte. */
module LogFile {
  import opened Bytes
  import opened Levels
  import opened MemTable
  import LE = LittleEndian
  import SSTable

  // ---- the record format ----

  datatype Entry = Entry(key: Bytes, val: Bytes, deleted: bool)

  /** The CRC-32 of a byte string. Its value is left unspecified, so that every
      result below holds whatever checksum is used. */
  const crc32: Bytes -> nat

  function ChecksumIEEE(data: Bytes): nat {
    crc32(data) % U32
  }

  /** Everything the checksum covers. */
  function Payload(e: Entry): Bytes {
    LE.Put(|e.key|, 4) + LE.Put(|e.val|, 4) + [if e.deleted then 1 else 0] + e.key + e.val
  }

  function Encode(e: Entry): Bytes {
    LE.Put(ChecksumIEEE(Payload(e)), 4) + Payload(e)
  }

  const HEADER_LEN := 13

  datatype Decoded =
    | Whole(entry: Entry, used: nat)
    | CleanEof
    | UnexpectedEof
    | BadSum(used: nat)
    | Panics

  /** Reads one record from the front of `s`. The body length is 32-bit arithmetic;
      when the two lengths overflow it, cutting the key out of the body panics. */
  function Decode(s: Bytes): Decoded {
    if s == [] then CleanEof
    else if |s| < HEADER_LEN then UnexpectedEof
    else
      var klen, vlen := LE.Get(s[4..8]), LE.Get(s[8..12]);
      var n := (klen + vlen) % U32;
      if |s| < HEADER_LEN + n then UnexpectedEof
      else if ChecksumIEEE(s[4..HEADER_LEN + n]) != LE.Get(s[..4]) then BadSum(HEADER_LEN + n)
      else if klen > n then Panics
      else
        var body := s[HEADER_LEN..HEADER_LEN + n];
        Whole(Entry(body[..klen], body[klen..], s[12] != 0), HEADER_LEN + n)
  }

  /** The lengths that the format can carry. */
  predicate Small(e: Entry) {
    |e.key| + |e.val| < U32
  }

  /** Where the five parts of a record lie in a byte string that starts with it. */
  lemma Slices(a: Bytes, b: Bytes, c: Bytes, f: byte, d: Bytes, rest: Bytes)
    requires |a| == |b| == |c| == 4
    ensures var s := a + (b + c + [f] + d) + rest;
      s[..4] == a && s[4..8] == b && s[8..12] == c && s[12] == f &&
      s[HEADER_LEN..HEADER_LEN + |d|] == d && s[4..HEADER_LEN + |d|] == b + c + [f] + d
  {
    var s := a + (b + c + [f] + d) + rest;
    assert s == a + b + c + [f] + d + rest;
    assert s[4..HEADER_LEN + |d|] == b + c + [f] + d;
  }

  lemma EncodedParts(e: Entry, rest: Bytes)
    ensures |Payload(e)| == 9 + |e.key| + |e.val| && |Encode(e)| == HEADER_LEN + |e.key| + |e.val|
    ensures var s := Encode(e) + rest;
      s[..4] == LE.Put(ChecksumIEEE(Payload(e)), 4) &&
      s[4..8] == LE.Put(|e.key|, 4) && s[8..12] == LE.Put(|e.val|, 4) &&
      s[12] == (if e.deleted then 1 else 0) &&
      s[4..|Encode(e)|] == Payload(e) && s[HEADER_LEN..|Encode(e)|] == e.key + e.val
  {
    var a, b, c, f := LE.Put(ChecksumIEEE(Payload(e)), 4), LE.Put(|e.key|, 4), LE.Put(|e.val|, 4),
      if e.deleted then 1 else 0;
    assert Payload(e) == b + c + [f] + (e.key + e.val);
    Slices(a, b, c, f, e.key + e.val, rest);
  }

  lemma ChecksumFits(data: Bytes)
    ensures LE.Get(LE.Put(ChecksumIEEE(data), 4)) == ChecksumIEEE(data)
  {
    LE.GetPut(ChecksumIEEE(data), 4);
    LE.Widths();
  }

  /** A record that fits the format is read back, whatever follows it. */
  lemma DecodeEncode(e: Entry, rest: Bytes)
    requires Small(e)
    ensures Decode(Encode(e) + rest) == Whole(e, |Encode(e)|)
  {
    hide LE.Put, LE.Get, Power256, Payload, ChecksumIEEE;
    EncodedParts(e, rest);
    ChecksumFits(Payload(e));
    LE.Widths();
    LE.GetPut(|e.key|, 4);
    LE.GetPut(|e.val|, 4);
    var body := e.key + e.val;
    assert body[..|e.key|] == e.key && body[|e.key|..] == e.val;
  }

  /** ... and those are the only records that are. */
  lemma RoundTripExactlyWhenSmall(e: Entry, rest: Bytes)
    ensures Decode(Encode(e) + rest) == Whole(e, |Encode(e)|) <==> Small(e)
  {
    if Small(e) { DecodeEncode(e, rest); }
  }

  // ---- what a record is, on the bytes ----

  /** A checksum, two lengths, a flag, a body of as many bytes as the lengths say in
      32-bit arithmetic, and anything behind. */
  ghost predicate Frame(s: Bytes, sum: Bytes, klen: Bytes, vlen: Bytes, flag: byte, body: Bytes, rest: Bytes) {
    && |sum| == 4 && |klen| == 4 && |vlen| == 4
    && |body| == (LE.Get(klen) + LE.Get(vlen)) % U32
    && s == sum + (klen + vlen + [flag] + body) + rest
  }

  lemma DecodeComplete(s: Bytes)
    requires |s| >= HEADER_LEN
    ensures var klen, vlen := LE.Get(s[4..8]), LE.Get(s[8..12]); var n := (klen + vlen) % U32;
      |s| >= HEADER_LEN + n ==>
        Decode(s) ==
          if ChecksumIEEE(s[4..HEADER_LEN + n]) != LE.Get(s[..4]) then BadSum(HEADER_LEN + n)
          else if klen > n then Panics
          else Whole(Entry(s[HEADER_LEN..HEADER_LEN + n][..klen], s[HEADER_LEN..HEADER_LEN + n][klen..], s[12] != 0),
                     HEADER_LEN + n)
  {
    hide LE.Get, ChecksumIEEE;
  }

  lemma LengthsOverflow(klen: Bytes, vlen: Bytes)
    requires |klen| == |vlen| == 4
    ensures var k, v := LE.Get(klen), LE.Get(vlen); k > (k + v) % U32 <==> k + v >= U32
  {
    LE.Widths();
    LE.GetBound(klen);
    LE.GetBound(vlen);
    hide LE.Get;
  }

  lemma SumIsStored(sum: Bytes, data: Bytes)
    requires |sum| == 4
    ensures ChecksumIEEE(data) == LE.Get(sum) <==> sum == LE.Put(ChecksumIEEE(data), 4)
  {
    LE.PutGet(sum);
    ChecksumFits(data);
    hide LE.Put, LE.Get, ChecksumIEEE;
  }

  /** A complete record is refused exactly when its stored checksum is not that of
      everything behind it; otherwise its body is cut where the key ends, and that
      fails exactly when the two lengths overflow. */
  lemma FrameIsRead(s: Bytes, sum: Bytes, klen: Bytes, vlen: Bytes, flag: byte, body: Bytes, rest: Bytes)
    requires Frame(s, sum, klen, vlen, flag, body, rest)
    ensures var k, n := LE.Get(klen), HEADER_LEN + |body|;
      Decode(s) ==
        if sum != LE.Put(ChecksumIEEE(klen + vlen + [flag] + body), 4) then BadSum(n)
        else if LE.Get(klen) + LE.Get(vlen) >= U32 then Panics
        else Whole(Entry(body[..k], body[k..], flag != 0), n)
  {
    hide Decode, LE.Put, LE.Get, ChecksumIEEE;
    Slices(sum, klen, vlen, flag, body, rest);
    DecodeComplete(s);
    LengthsOverflow(klen, vlen);
    SumIsStored(sum, klen + vlen + [flag] + body);
  }

  lemma FrameFound(s: Bytes)
    requires !Decode(s).CleanEof? && !Decode(s).UnexpectedEof?
    ensures exists sum, klen, vlen, flag, body, rest :: Frame(s, sum, klen, vlen, flag, body, rest)
  {
    hide LE.Get, ChecksumIEEE;
    var n := HEADER_LEN + (LE.Get(s[4..8]) + LE.Get(s[8..12])) % U32;
    assert s == s[..4] + (s[4..8] + s[8..12] + [s[12]] + s[HEADER_LEN..n]) + s[n..];
    assert Frame(s, s[..4], s[4..8], s[8..12], s[12], s[HEADER_LEN..n], s[n..]);
  }

  /** Reading ends the log exactly where no complete record starts, cleanly exactly at
      the last byte. */
  lemma EndsExactlyWhen(s: Bytes)
    ensures Decode(s) == CleanEof <==> s == []
    ensures Decode(s) == CleanEof || Decode(s) == UnexpectedEof
      <==> !exists sum, klen, vlen, flag, body, rest :: Frame(s, sum, klen, vlen, flag, body, rest)
  {
    hide LE.Put, LE.Get, ChecksumIEEE;
    if Decode(s) == CleanEof || Decode(s) == UnexpectedEof {
      forall sum, klen, vlen, flag, body, rest ensures !Frame(s, sum, klen, vlen, flag, body, rest) {
        if Frame(s, sum, klen, vlen, flag, body, rest) {
          FrameIsRead(s, sum, klen, vlen, flag, body, rest);
          assert false;
        }
      }
    } else {
      FrameFound(s);
    }
  }

  /** The bytes of this record, its flag and its checksum in front of `rest`. */
  ghost predicate StartsWith(s: Bytes, e: Entry, flag: byte, rest: Bytes) {
    var p := LE.Put(|e.key|, 4) + LE.Put(|e.val|, 4) + [flag] + (e.key + e.val);
    (flag != 0 <==> e.deleted) && s == LE.Put(ChecksumIEEE(p), 4) + p + rest
  }

  /** A record is read exactly when the log starts with its bytes under their checksum
      and its lengths sum below 2^32. */
  lemma WholeExactlyWhen(s: Bytes, e: Entry, n: nat)
    ensures Decode(s) == Whole(e, n) <==>
      && |e.key| + |e.val| < U32 && n == HEADER_LEN + |e.key| + |e.val|
      && exists flag, rest :: StartsWith(s, e, flag, rest)
  {
    if Decode(s) == Whole(e, n) {
      WholeIsWritten(s, e, n);
    }
    if |e.key| + |e.val| < U32 {
      forall flag, rest | StartsWith(s, e, flag, rest)
        ensures Decode(s) == Whole(e, HEADER_LEN + |e.key| + |e.val|)
      {
        WrittenIsWhole(s, e, flag, rest);
      }
    }
  }

  lemma WrittenIsWhole(s: Bytes, e: Entry, flag: byte, rest: Bytes)
    requires StartsWith(s, e, flag, rest) && |e.key| + |e.val| < U32
    ensures Decode(s) == Whole(e, HEADER_LEN + |e.key| + |e.val|)
  {
    hide Decode, LE.Put, LE.Get, ChecksumIEEE;
    var k, v, body := LE.Put(|e.key|, 4), LE.Put(|e.val|, 4), e.key + e.val;
    LengthsAreRead(|e.key|, |e.val|);
    FrameIsRead(s, LE.Put(ChecksumIEEE(k + v + [flag] + body), 4), k, v, flag, body, rest);
    assert body[..|e.key|] == e.key && body[|e.key|..] == e.val;
  }

  lemma LengthsAreRead(k: nat, v: nat)
    requires k + v < U32
    ensures LE.Get(LE.Put(k, 4)) == k && LE.Get(LE.Put(v, 4)) == v && (k + v) % U32 == k + v
  {
    LE.Widths();
    LE.GetPut(k, 4);
    LE.GetPut(v, 4);
  }

  lemma WholeIsWritten(s: Bytes, e: Entry, n: nat)
    requires Decode(s) == Whole(e, n)
    ensures |e.key| + |e.val| < U32 && n == HEADER_LEN + |e.key| + |e.val|
    ensures exists flag, rest :: StartsWith(s, e, flag, rest)
  {
    hide Decode, LE.Put, LE.Get, ChecksumIEEE;
    FrameFound(s);
    var sum, klen, vlen, flag, body, rest :| Frame(s, sum, klen, vlen, flag, body, rest);
    FrameIsRead(s, sum, klen, vlen, flag, body, rest);
    FrameIsWritten(s, e, sum, klen, vlen, flag, body, rest);
  }

  lemma FrameIsWritten(s: Bytes, e: Entry, sum: Bytes, klen: Bytes, vlen: Bytes, flag: byte, body: Bytes, rest: Bytes)
    requires Frame(s, sum, klen, vlen, flag, body, rest) && LE.Get(klen) + LE.Get(vlen) < U32
    requires sum == LE.Put(ChecksumIEEE(klen + vlen + [flag] + body), 4)
    requires e == Entry(body[..LE.Get(klen)], body[LE.Get(klen)..], flag != 0)
    ensures |e.key| == LE.Get(klen) && |e.val| == LE.Get(vlen) && StartsWith(s, e, flag, rest)
  {
    LE.PutGet(klen);
    LE.PutGet(vlen);
    hide LE.Put, LE.Get, ChecksumIEEE;
    assert body == e.key + e.val;
  }

  /** A record cut anywhere before its end is never taken for a record. */
  lemma TornRecordIsRefused(e: Entry, n: nat, more: Bytes)
    requires Small(e) && n < |Encode(e)|
    requires |more| == 0 || (n >= HEADER_LEN && n + |more| < |Encode(e)|)
    ensures Decode(Encode(e)[..n] + more) == if n == 0 && more == [] then CleanEof else UnexpectedEof
  {
    hide LE.Put, LE.Get, Power256, Payload, ChecksumIEEE;
    EncodedParts(e, []);
    assert Encode(e) + [] == Encode(e);
    var s := Encode(e)[..n] + more;
    if n >= HEADER_LEN {
      assert s[4..8] == Encode(e)[4..8] && s[8..12] == Encode(e)[8..12];
      LE.Widths();
      LE.GetPut(|e.key|, 4);
      LE.GetPut(|e.val|, 4);
    }
  }

  // ---- replay ----

  /** What reading a log to its usable end yields: the records, how many bytes
      were consumed (the position the next append goes to), and whether it ended
      in a panic. */
  datatype Replayed = Replayed(entries: seq<Entry>, used: nat, panicked: bool)

  function Replay(s: Bytes): (r: Replayed)
    ensures r.used <= |s|
    decreases |s|
  {
    match Decode(s)
    case Whole(e, n) =>
      var r := Replay(s[n..]);
      Replayed([e] + r.entries, n + r.used, r.panicked)
    case CleanEof => Replayed([], 0, false)
    case UnexpectedEof => Replayed([], |s|, false)
    case BadSum(n) => Replayed([], n, false)
    case Panics => Replayed([], 0, true)
  }

  function EncodeAll(es: seq<Entry>): Bytes {
    if es == [] then [] else Encode(es[0]) + EncodeAll(es[1..])
  }

  predicate AllSmall(es: seq<Entry>) {
    forall i :: 0 <= i < |es| ==> Small(es[i])
  }

  function Prepend(es: seq<Entry>, n: nat, r: Replayed): Replayed {
    Replayed(es + r.entries, n + r.used, r.panicked)
  }

  lemma ReplayStep(e: Entry, rest: Bytes)
    requires Small(e)
    ensures Replay(Encode(e) + rest) == Prepend([e], |Encode(e)|, Replay(rest))
  {
    DecodeEncode(e, rest);
    assert (Encode(e) + rest)[|Encode(e)|..] == rest;
  }

  lemma ReplayTorn(e: Entry, n: nat)
    requires Small(e) && n < |Encode(e)|
    ensures Replay(Encode(e)[..n]) == Replayed([], n, false)
  {
    TornRecordIsRefused(e, n, []);
    assert Encode(e)[..n] + [] == Encode(e)[..n];
  }

  lemma PrependTwice(e: Entry, es: seq<Entry>, k: nat, n: nat, r: Replayed)
    ensures Prepend([e], k, Prepend(es, n, r)) == Prepend([e] + es, k + n, r)
  {
    assert [e] + (es + r.entries) == [e] + es + r.entries;
  }

  /** Whole records in front are read first; the rest is read as if it stood alone. */
  lemma {:induction false} ReplayThenRest(es: seq<Entry>, rest: Bytes)
    requires AllSmall(es)
    ensures Replay(EncodeAll(es) + rest) == Prepend(es, |EncodeAll(es)|, Replay(rest))
  {
    hide Encode, Replay;
    if es == [] {
      assert EncodeAll(es) + rest == rest;
      assert es + Replay(rest).entries == Replay(rest).entries;
    } else {
      var e, tail := es[0], EncodeAll(es[1..]) + rest;
      assert EncodeAll(es) + rest == Encode(e) + tail;
      ReplayStep(e, tail);
      ReplayThenRest(es[1..], rest);
      PrependTwice(e, es[1..], |Encode(e)|, |EncodeAll(es[1..])|, Replay(rest));
      assert es == [e] + es[1..];
    }
  }

  /** How many records lie entirely within the first `n` bytes. */
  function WholeWithin(es: seq<Entry>, n: nat): (w: nat)
    ensures w <= |es|
  {
    if es == [] || n < |Encode(es[0])| then 0 else 1 + WholeWithin(es[1..], n - |Encode(es[0])|)
  }

  /** A byte prefix of a log is a run of whole records and a proper part of the next. */
  lemma {:induction false} PrefixSplits(es: seq<Entry>, n: nat)
    requires n <= |EncodeAll(es)|
    ensures var w := WholeWithin(es, n); var k := |EncodeAll(es[..w])|;
      k <= n && (w == |es| ==> k == n) && (w < |es| ==> n - k < |Encode(es[w])|) &&
      EncodeAll(es)[..n] == EncodeAll(es[..w]) + if w < |es| then Encode(es[w])[..n - k] else []
  {
    hide Encode;
    var w := WholeWithin(es, n);
    if w == 0 {
      assert es[..0] == [];
    } else {
      var k := |Encode(es[0])|;
      PrefixSplits(es[1..], n - k);
      assert es[..w] == [es[0]] + es[1..][..w - 1];
      assert EncodeAll(es)[..n] == Encode(es[0]) + EncodeAll(es[1..])[..n - k];
    }
  }

  /** Replaying any byte prefix of a log returns exactly its longest run of whole
      records, and leaves the position at the end of the file. */
  lemma ReplayOfPrefix(es: seq<Entry>, n: nat)
    requires AllSmall(es) && n <= |EncodeAll(es)|
    ensures Replay(EncodeAll(es)[..n]) == Replayed(es[..WholeWithin(es, n)], n, false)
  {
    PrefixSplits(es, n);
    var w := WholeWithin(es, n);
    var k := |EncodeAll(es[..w])|;
    var t := if w < |es| then Encode(es[w])[..n - k] else [];
    if w < |es| { ReplayTorn(es[w], n - k); }
    ReplayThenRest(es[..w], t);
    assert es[..w] + [] == es[..w];
  }

  /** Bytes that no replay takes a record from: what a torn append leaves behind. */
  predicate Torn(x: Bytes) {
    !Decode(x).Whole? && !Decode(x).Panics?
  }

  /** How many leading bytes are whole records. */
  function WholeLen(s: Bytes): (n: nat)
    ensures n <= |s|
    decreases |s|
  {
    match Decode(s)
    case Whole(_, n) => n + WholeLen(s[n..])
    case _ => 0
  }

  /** No torn tail: replay reads the log to its last byte. */
  predicate CleanLog(s: Bytes) {
    WholeLen(s) == |s|
  }

  /** A record at the front is read whatever follows. */
  lemma DecodeExtends(s: Bytes, rest: Bytes)
    requires Decode(s).Whole?
    ensures Decode(s + rest) == Decode(s)
  {
    var x := s + rest;
    var n := Decode(s).used;
    assert x[4..8] == s[4..8] && x[8..12] == s[8..12] && x[..4] == s[..4];
    assert x[4..n] == s[4..n] && x[HEADER_LEN..n] == s[HEADER_LEN..n];
  }

  /** Behind a clean log, whatever is appended is read as if it stood alone. */
  lemma {:induction false} CleanLogExtends(s: Bytes, rest: Bytes)
    requires CleanLog(s)
    ensures Replay(s + rest) == Prepend(Replay(s).entries, |s|, Replay(rest))
    ensures CleanLog(s + rest) <==> CleanLog(rest)
    ensures Replay(s).used == |s| && !Replay(s).panicked
    decreases |s|
  {
    if s == [] {
      assert s + rest == rest;
      assert Replay(s).entries + Replay(rest).entries == Replay(rest).entries;
    } else {
      var d := Decode(s);
      var tail := s[d.used..];
      DecodeExtends(s, rest);
      assert (s + rest)[d.used..] == tail + rest;
      CleanLogExtends(tail, rest);
      PrependTwice(d.entry, Replay(tail).entries, d.used, |tail|, Replay(rest));
    }
  }

  /** A record at the front needs no more than its own bytes. */
  lemma DecodeNeeds(s: Bytes, n: nat)
    requires Decode(s).Whole? && Decode(s).used <= n <= |s|
    ensures Decode(s[..n]) == Decode(s)
  {
    var x := s[..n];
    var k := Decode(s).used;
    assert x[4..8] == s[4..8] && x[8..12] == s[8..12] && x[..4] == s[..4];
    assert x[4..k] == s[4..k] && x[HEADER_LEN..k] == s[HEADER_LEN..k];
  }

  /** Reading goes on behind a whole record, and ends before anything else. */
  lemma ReadsOn(s: Bytes)
    ensures var d := Decode(s);
      if d.Whole? then
        0 < d.used <= |s| && WholeLen(s) == d.used + WholeLen(s[d.used..]) &&
        (Replay(s).panicked <==> Replay(s[d.used..]).panicked)
      else
        WholeLen(s) == 0 && (Torn(s) <==> !Replay(s).panicked)
  {
    hide LE.Get, ChecksumIEEE;
  }

  /** Every log is a clean log and, unless reading it panics, torn bytes behind that. */
  lemma {:induction false} EveryLogSplits(s: Bytes)
    ensures var n := WholeLen(s);
      CleanLog(s[..n]) && (Torn(s[n..]) <==> !Replay(s).panicked) && s == s[..n] + s[n..]
    decreases |s|
  {
    hide Decode, WholeLen, Replay, Torn;
    var n := WholeLen(s);
    ReadsOn(s);
    if Decode(s).Whole? {
      var k := Decode(s).used;
      EveryLogSplits(s[k..]);
      DecodeNeeds(s, n);
      ReadsOn(s[..n]);
      assert s[..n][k..] == s[k..][..n - k] && s[k..][n - k..] == s[n..];
    } else {
      assert s[..0] == [] && s[0..] == s;
      NothingIsClean();
    }
  }

  lemma NothingIsClean()
    ensures CleanLog([])
  {
  }

  /** Appending one whole record to a clean log adds that record to the replay. */
  lemma AppendToCleanLog(s: Bytes, e: Entry)
    requires CleanLog(s) && Small(e)
    ensures CleanLog(s + Encode(e))
    ensures Replay(s + Encode(e)) == Replayed(Replay(s).entries + [e], |s| + |Encode(e)|, false)
  {
    hide Encode;
    CleanLogExtends(s, Encode(e));
    DecodeEncode(e, []);
    assert Encode(e) + [] == Encode(e);
    ReplayStep(e, []);
    assert Encode(e)[|Encode(e)|..] == [];
    assert [e] + [] == [e];
  }

  /** A torn append to a clean log leaves the replay as it was. */
  lemma TornAppendToCleanLog(s: Bytes, x: Bytes)
    requires CleanLog(s) && Torn(x)
    ensures Replay(s + x).entries == Replay(s).entries && !Replay(s + x).panicked
  {
    CleanLogExtends(s, x);
    assert Replay(s).entries + [] == Replay(s).entries;
  }

  lemma {:induction false} EncodedIsClean(es: seq<Entry>)
    requires AllSmall(es)
    ensures CleanLog(EncodeAll(es))
  {
    hide Encode;
    if es != [] {
      var rest := EncodeAll(es[1..]);
      DecodeEncode(es[0], rest);
      assert (Encode(es[0]) + rest)[|Encode(es[0])|..] == rest;
      EncodedIsClean(es[1..]);
    }
  }

  /** A write at any offset behind a clean log leaves that log alone. */
  lemma WriteBehind(f: Bytes, x: Bytes, at: nat, w: Bytes)
    ensures SSTable.WriteAt(f + x, |f| + at, w) == f + SSTable.WriteAt(x, at, w)
  {
  }

  /** The bytes behind a clean log decide alone what else is replayed, and where the
      next append goes. */
  lemma ReplayBehind(f: Bytes, x: Bytes, at: nat, w: Bytes)
    requires CleanLog(f)
    ensures Replay(f + x) == Prepend(Replay(f).entries, |f|, Replay(x))
    ensures Replay(SSTable.WriteAt(f + x, |f| + at, w)) ==
      Prepend(Replay(f).entries, |f|, Replay(SSTable.WriteAt(x, at, w)))
  {
    hide Replay, SSTable.WriteAt, CleanLog;
    CleanLogExtends(f, x);
    WriteBehind(f, x, at, w);
    CleanLogExtends(f, SSTable.WriteAt(x, at, w));
  }

  /** Replay stops at torn bytes but does not cut them off. A write behind them is
      lost exactly when they are still torn with it. */
  lemma WriteIsLostExactlyWhen(f: Bytes, x: Bytes, at: nat, w: Bytes)
    requires CleanLog(f) && Torn(x)
    ensures var log := SSTable.WriteAt(f + x, |f| + at, w);
      (Replay(log).entries == Replay(f + x).entries && !Replay(log).panicked) <==> Torn(SSTable.WriteAt(x, at, w))
  {
    ReplayBehind(f, x, at, w);
    TornReplaysNothing(x);
    TornReplaysNothing(SSTable.WriteAt(x, at, w));
    hide Replay, SSTable.WriteAt, CleanLog, Torn;
    var more := Replay(SSTable.WriteAt(x, at, w)).entries;
    assert more != [] ==> |Replay(f).entries + more| > |Replay(f).entries|;
  }

  lemma TornReplaysNothing(x: Bytes)
    ensures Torn(x) <==> Replay(x).entries == [] && !Replay(x).panicked
  {
    hide LE.Get;
  }

  /** Behind a record with a bad checksum every write is lost: the next one starts
      after it, and it is never looked at again. */
  lemma BadSumIsForever(x: Bytes, at: nat, w: Bytes)
    requires Decode(x).BadSum? && Replay(x).used <= at
    ensures Decode(SSTable.WriteAt(x, at, w)) == Decode(x)
  {
    var n := Decode(x).used;
    var y := SSTable.WriteAt(x, at, w);
    SSTable.WriteAtFrame(x, at, w, 0, n);
    assert y[..n] == x[..n] by { assert y[0..n] == y[..n] && x[0..n] == x[..n]; }
    SameFront(x, y, n);
  }

  lemma SameFront(x: Bytes, y: Bytes, n: nat)
    requires HEADER_LEN <= n <= |x| && n <= |y| && x[..n] == y[..n]
    requires Decode(x).BadSum? && Decode(x).used == n
    ensures Decode(y) == Decode(x)
  {
    assert x[..4] == x[..n][..4] && y[..4] == y[..n][..4];
    assert x[4..8] == x[..n][4..8] && y[4..8] == y[..n][4..8];
    assert x[8..12] == x[..n][8..12] && y[8..12] == y[..n][8..12];
    assert x[4..n] == x[..n][4..n] && y[4..n] == y[..n][4..n];
  }

  /** As long as everything written behind a record cut after its header is shorter
      than what is missing of it, all of it is lost. */
  lemma AppendsBehindTearAreLost(es: seq<Entry>, e: Entry, n: nat, fs: seq<Entry>)
    requires AllSmall(es) && Small(e)
    requires HEADER_LEN <= n && n + |EncodeAll(fs)| < |Encode(e)|
    ensures var log := EncodeAll(es) + Encode(e)[..n] + EncodeAll(fs);
      Replay(log) == Replayed(es, |log|, false)
  {
    var t := Encode(e)[..n] + EncodeAll(fs);
    TornRecordIsRefused(e, n, EncodeAll(fs));
    assert Replay(t) == Replayed([], |t|, false);
    ReplayThenRest(es, t);
    assert EncodeAll(es) + t == EncodeAll(es) + Encode(e)[..n] + EncodeAll(fs);
    assert es + [] == es;
  }

  // ---- folding a log into the MemTable ----

  function RecordOf(e: Entry): Record {
    Record(e.key, if e.deleted then [] else e.val, e.deleted)
  }

  function ApplyAll(l: Level, es: seq<Entry>): Level
    decreases |es|
  {
    if es == [] then l else ApplyAll(Put(l, RecordOf(es[0])), es[1..])
  }

  lemma {:induction false} ApplyAllConcat(l: Level, a: seq<Entry>, b: seq<Entry>)
    ensures ApplyAll(l, a + b) == ApplyAll(ApplyAll(l, a), b)
    decreases |a|
  {
    if a == [] {
      assert a + b == b;
    } else {
      assert (a + b)[1..] == a[1..] + b;
      ApplyAllConcat(Put(l, RecordOf(a[0])), a[1..], b);
    }
  }

  /** The last entry for `k`, if any. */
  function LastFor(es: seq<Entry>, k: Bytes): Option<Record> {
    if es == [] then None
    else if es[|es| - 1].key == k then Some(RecordOf(es[|es| - 1]))
    else LastFor(es[..|es| - 1], k)
  }

  /** Replaying into the MemTable is last-writer-wins per key. */
  lemma {:induction false} ApplyAllFind(l: Level, es: seq<Entry>, k: Bytes)
    requires Sorted(l)
    ensures Sorted(ApplyAll(l, es))
    ensures Find(ApplyAll(l, es), k) == if LastFor(es, k).Some? then LastFor(es, k) else Find(l, k)
    decreases |es|
  {
    if es != [] {
      var n := |es| - 1;
      assert es == es[..n] + [es[n]];
      ApplyAllConcat(l, es[..n], [es[n]]);
      assert [es[n]][1..] == [];
      ApplyAllFind(l, es[..n], k);
      PutFind(ApplyAll(l, es[..n]), RecordOf(es[n]), k);
      PutSorted(ApplyAll(l, es[..n]), RecordOf(es[n]));
    }
  }
}
