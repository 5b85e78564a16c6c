/** The tokens of a SQL text, read off the front of what is left of it. */
module Tokens {
  import opened Bytes

  // ---- byte classes ----

  /** Blank, tab, line feed, vertical tab, form feed and carriage return. */
  predicate IsSpace(ch: byte) {
    ch == 32 || 9 <= ch <= 13
  }

  /** ch | 32 lowers an ASCII letter. */
  function Lowered(ch: byte): byte {
    if ch / 32 % 2 == 1 then ch else ch + 32
  }

  predicate IsAlpha(ch: byte) {
    97 <= Lowered(ch) <= 122
  }

  predicate IsDigit(ch: byte) {
    48 <= ch <= 57
  }

  predicate IsNameStart(ch: byte) {
    IsAlpha(ch) || ch == 95
  }

  predicate IsNameContinue(ch: byte) {
    IsAlpha(ch) || IsDigit(ch) || ch == 95
  }

  /** Letters of either case, digits and the underscore, written out. */
  lemma NameBytes(ch: byte)
    ensures IsNameStart(ch) <==> 65 <= ch <= 90 || 97 <= ch <= 122 || ch == 95
    ensures IsNameContinue(ch) <==> 48 <= ch <= 57 || 65 <= ch <= 90 || 97 <= ch <= 122 || ch == 95
    ensures IsSpace(ch) <==> ch in {9, 10, 11, 12, 13, 32}
  {
  }

  // ---- primitives ----

  function SkipSpaces(s: Bytes): (r: Bytes)
    ensures |r| <= |s|
    ensures r == [] || !IsSpace(r[0])
    ensures s == [] || !IsSpace(s[0]) ==> r == s
  {
    if s != [] && IsSpace(s[0]) then SkipSpaces(s[1..]) else s
  }

  function NameLength(s: Bytes): (n: nat)
    ensures n <= |s| && forall i :: 0 <= i < n ==> IsNameContinue(s[i])
    ensures n == |s| || !IsNameContinue(s[n])
  {
    if s != [] && IsNameContinue(s[0]) then 1 + NameLength(s[1..]) else 0
  }

  function TryName(s: Bytes): (r: Option<(Bytes, Bytes)>)
    ensures r.Some? ==> |r.value.1| < |s|
  {
    var t := SkipSpaces(s);
    if t == [] || !IsNameStart(t[0]) then None
    else Some((t[..NameLength(t)], t[NameLength(t)..]))
  }

  /** Case-insensitive equality with an upper-case ASCII keyword. No letter of OR,
      AND and NOT has a case variant outside ASCII. */
  predicate EqualFold(text: Bytes, kw: Bytes) {
    |text| == |kw| && forall i :: 0 <= i < |kw| ==> text[i] == kw[i] || (97 <= text[i] <= 122 && text[i] - 32 == kw[i])
  }

  /** A keyword must not run on into a longer name. */
  function TryKeyword(s: Bytes, kw: Bytes): (r: Option<Bytes>)
    ensures r.Some? ==> |r.value| + |kw| <= |s|
  {
    var t := SkipSpaces(s);
    if |t| < |kw| || !EqualFold(t[..|kw|], kw) then None
    else if |t| > |kw| && IsNameContinue(t[|kw|]) then None
    else Some(t[|kw|..])
  }

  /** Several keywords in a row, all of them or none. */
  function TryKeywords(s: Bytes, kws: seq<Bytes>): (r: Option<Bytes>)
    ensures r.Some? ==> |r.value| <= |s|
    decreases |kws|
  {
    if kws == [] then Some(s)
    else match TryKeyword(s, kws[0])
      case None => None
      case Some(rest) => TryKeywords(rest, kws[1..])
  }

  /** Punctuation is skipped to even when it does not match. */
  function TryPunctuation(s: Bytes, pun: Bytes): (r: (bool, Bytes))
    ensures |r.1| <= |s| && (r.0 ==> |r.1| + |pun| <= |s|)
  {
    var t := SkipSpaces(s);
    if pun <= t then (true, t[|pun|..]) else (false, t)
  }

  lemma SkipIdempotent(s: Bytes)
    ensures SkipSpaces(SkipSpaces(s)) == SkipSpaces(s)
  {
  }

  // ---- literals ----

  const MAX_INT := I63 - 1

  function DigitCount(s: Bytes): (n: nat)
    ensures n <= |s| && forall i :: 0 <= i < n ==> IsDigit(s[i])
    ensures n == |s| || !IsDigit(s[n])
  {
    if s != [] && IsDigit(s[0]) then 1 + DigitCount(s[1..]) else 0
  }

  function DigitsValue(ds: Bytes): nat
    requires forall i :: 0 <= i < |ds| ==> IsDigit(ds[i])
  {
    if ds == [] then 0
    else
      assert IsDigit(ds[|ds| - 1]);
      10 * DigitsValue(ds[..|ds| - 1]) + (ds[|ds| - 1] - 48)
  }

  /** strconv.ParseInt after an optional sign: the value must fit 64 bits. */
  function ParseInt(s: Bytes): (r: Option<(int, Bytes)>)
    ensures r.Some? ==> -MAX_INT - 1 <= r.value.0 <= MAX_INT && |r.value.1| < |s|
  {
    var signed := s != [] && (s[0] == 43 || s[0] == 45);
    var body := if signed then s[1..] else s;
    var n := DigitCount(body);
    if n == 0 then None
    else
      var magnitude: int := DigitsValue(body[..n]);
      var v := if signed && s[0] == 45 then -magnitude else magnitude;
      if -MAX_INT - 1 <= v <= MAX_INT then Some((v, body[n..])) else None
  }

  predicate IsEscapable(ch: byte) {
    ch == 39 || ch == 34 || ch == 92
  }

  /** What stands between an opening quote and the matching closing one. */
  function Unquote(quote: byte, s: Bytes): (r: Option<(Bytes, Bytes)>)
    ensures r.Some? ==> |r.value.1| < |s|
  {
    if s == [] then None
    else if s[0] == 92 then
      if |s| < 2 || !IsEscapable(s[1]) then None
      else match Unquote(quote, s[2..])
        case None => None
        case Some(p) => Some(([s[1]] + p.0, p.1))
    else if s[0] == quote then Some(([], s[1..]))
    else match Unquote(quote, s[1..])
      case None => None
      case Some(p) => Some(([s[0]] + p.0, p.1))
  }

  /** A string literal in either quote. */
  function ParseString(s: Bytes): (r: Option<(Bytes, Bytes)>)
    ensures r.Some? ==> |r.value.1| < |s|
  {
    var t := SkipSpaces(s);
    if t == [] || !(t[0] == 39 || t[0] == 34) then None else Unquote(t[0], t[1..])
  }
}
