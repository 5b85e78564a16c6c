/** The directory the store owns, the operations the engine issues on it, and what
    a power cut in the middle of one can leave behind. */
module Disk {
  import opened Bytes
  import opened MetaSlots
  import LogFile
  import SSTable

  /** Files are named by version; a name not in `files` does not exist. */
  datatype Directory = Directory(log: Bytes, slots: Slots, files: map<nat, Bytes>)

  datatype DiskOp =
    | WriteLog(pos: nat, data: Bytes)
    | TruncateLog
    | WriteSlot(meta: Meta)
    | PutFile(name: nat, data: Bytes)
    | RemoveFile(name: nat)

  function Exec(d: Directory, op: DiskOp): Directory {
    match op
    case WriteLog(pos, data) => d.(log := SSTable.WriteAt(d.log, pos, data))
    case TruncateLog => d.(log := [])
    case WriteSlot(meta) => d.(slots := d.slots[Target(d.slots) := Good(meta)])
    case PutFile(name, data) => d.(files := d.files[name := data])
    case RemoveFile(name) => d.(files := d.files - {name})
  }

  function ExecAll(d: Directory, ops: seq<DiskOp>): Directory
    decreases |ops|
  {
    if ops == [] then d else ExecAll(Exec(d, ops[0]), ops[1..])
  }

  lemma {:induction false} ExecAllConcat(d: Directory, a: seq<DiskOp>, b: seq<DiskOp>)
    ensures ExecAll(d, a + b) == ExecAll(ExecAll(d, a), b)
    decreases |a|
  {
    if a == [] {
      assert a + b == b;
    } else {
      assert (a + b)[1..] == a[1..] + b;
      ExecAllConcat(Exec(d, a[0]), a[1..], b);
    }
  }

  /** How an operation was cut short. A log append leaves bytes that replay does
      not take for a record; a slot is left as it was or with a bad checksum; a
      file being created holds anything at all. */
  datatype Cut = Untouched | Torn(left: Bytes) | Finished

  predicate Possible(op: DiskOp, cut: Cut) {
    match cut
    case Untouched | Finished => true
    case Torn(left) => match op
      case WriteLog(_, data) => |left| <= |data| && LogFile.Torn(left)
      case WriteSlot(_) | PutFile(_, _) => true
      case TruncateLog | RemoveFile(_) => false
  }

  /** The directory that a crash during `op` leaves. */
  function CrashIn(d: Directory, op: DiskOp, cut: Cut): Directory
    requires Possible(op, cut)
  {
    match cut
    case Untouched => d
    case Finished => Exec(d, op)
    case Torn(left) => match op
      case WriteLog(pos, _) => d.(log := SSTable.WriteAt(d.log, pos, left))
      case WriteSlot(_) => d.(slots := d.slots[Target(d.slots) := Blank])
      case PutFile(name, _) => d.(files := d.files[name := left])
  }

  /** Whatever an interrupted write can leave is covered: any bytes in the file being
      created, an unreadable slot beside the other one, and in the log any bytes, as
      many as were written or fewer, that do not read as a record. */
  lemma EveryTearIsCovered(d: Directory, name: nat, data: Bytes, meta: Meta, pos: nat, left: Bytes)
    ensures Possible(PutFile(name, data), Torn(left))
    ensures CrashIn(d, PutFile(name, data), Torn(left)) == d.(files := d.files[name := left])
    ensures Possible(WriteSlot(meta), Torn(left))
    ensures var t := CrashIn(d, WriteSlot(meta), Torn(left)); var i := Target(d.slots);
      t.slots[i] == Blank && t.slots[1 - i] == d.slots[1 - i] && t.log == d.log && t.files == d.files
    ensures |left| <= |data| && !LogFile.Decode(left).Whole? && !LogFile.Decode(left).Panics? ==>
      Possible(WriteLog(pos, data), Torn(left)) &&
      CrashIn(d, WriteLog(pos, data), Torn(left)) == d.(log := SSTable.WriteAt(d.log, pos, left))
  {
    hide LogFile.Decode, SSTable.WriteAt;
  }

  /** Every proper part of a log record is a possible torn append. */
  lemma TornAppendIsPossible(e: LogFile.Entry, pos: nat, n: nat)
    requires LogFile.Small(e) && n < |LogFile.Encode(e)|
    ensures Possible(WriteLog(pos, LogFile.Encode(e)), Torn(LogFile.Encode(e)[..n]))
  {
    LogFile.TornRecordIsRefused(e, n, []);
    assert LogFile.Encode(e)[..n] + [] == LogFile.Encode(e)[..n];
  }
}
