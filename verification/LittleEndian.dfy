/** Fixed-width little-endian integers, as the log, the SSTables and the row
    values store them. */
module LittleEndian {
  import opened Bytes

  /** The low `w` bytes of `n`, least significant first; higher bits are cut off. */
  function Put(n: nat, w: nat): (b: Bytes)
    ensures |b| == w
  {
    if w == 0 then [] else [n % 256] + Put(n / 256, w - 1)
  }

  function Get(b: Bytes): (n: nat) {
    if b == [] then 0 else b[0] + 256 * Get(b[1..])
  }

  lemma {:induction false} GetBound(b: Bytes)
    ensures Get(b) < Power256(|b|)
  {
    if b != [] { GetBound(b[1..]); }
  }

  /** A number that fits the width is read back. */
  lemma {:induction false} GetPut(n: nat, w: nat)
    requires n < Power256(w)
    ensures Get(Put(n, w)) == n
  {
    if w > 0 { GetPut(n / 256, w - 1); }
  }

  /** ... and every number is written back as the bytes it was read from. */
  lemma {:induction false} PutGet(b: Bytes)
    ensures Put(Get(b), |b|) == b
  {
    if b != [] {
      PutGet(b[1..]);
      assert (b[0] + 256 * Get(b[1..])) / 256 == Get(b[1..]);
    }
  }

  lemma PutStep(n: nat, w: nat)
    requires w > 0
    ensures Put(n, w) == [n % 256] + Put(n / 256, w - 1)
  {
  }

  lemma Shifts(n: nat)
    ensures n / 0x100 / 256 == n / 0x1_0000
    ensures n / 0x1_0000 / 256 == n / 0x100_0000
    ensures n / 0x100_0000 / 256 == n / 0x1_0000_0000
  {
  }

  /** The four low bytes, the least significant first. */
  lemma LowBytes(n: nat, w: nat)
    requires w >= 4
    ensures Put(n, w) ==
      [n % 256, n / 0x100 % 256, n / 0x1_0000 % 256, n / 0x100_0000 % 256] + Put(n / 0x1_0000_0000, w - 4)
  {
    hide Put;
    Shifts(n);
    PutStep(n, w);
    PutStep(n / 0x100, w - 1);
    PutStep(n / 0x1_0000, w - 2);
    PutStep(n / 0x100_0000, w - 3);
  }

  lemma Widths()
    ensures Power256(4) == 0x1_0000_0000
    ensures Power256(8) == 0x1_0000_0000_0000_0000
  {
    assert Power256(2) == 65536 && Power256(3) == 16777216;
    assert Power256(5) == 256 * Power256(4) && Power256(6) == 256 * Power256(5) && Power256(7) == 256 * Power256(6);
  }
}
