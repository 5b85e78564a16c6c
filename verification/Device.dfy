/** The storage device and the two small files on it that the engine drives. */
module Device {
  import opened Bytes
  import opened Disk
  import opened MetaSlots
  import LogFile

  /** Every durable change goes through here; `issued` records them in order. */
  class Device {
    var log: Bytes
    var slots: Slots
    var files: map<nat, Bytes>
    ghost var issued: seq<DiskOp>

    constructor (dir: Directory)
      ensures Dir() == dir && issued == []
    {
      log, slots, files, issued := dir.log, dir.slots, dir.files, [];
    }

    function Dir(): Directory
      reads this
    {
      Directory(log, slots, files)
    }

    method Issue(op: DiskOp)
      modifies this
      ensures Dir() == Exec(old(Dir()), op) && issued == old(issued) + [op]
    {
      var d := Exec(Dir(), op);
      log, slots, files := d.log, d.slots, d.files;
      issued := issued + [op];
    }
  }

  class Log {
    const dev: Device
    var pos: nat

    constructor (dev: Device)
      ensures this.dev == dev && pos == 0
    {
      this.dev, pos := dev, 0;
    }

    /** Opening puts the position at the start. */
    method Open()
      modifies this
      ensures pos == 0
    {
      pos := 0;
    }

    /** Appends one record at the current position. */
    method Write(ent: LogFile.Entry)
      modifies this, dev
      ensures pos == old(pos) + |LogFile.Encode(ent)|
      ensures dev.Dir() == Exec(old(dev.Dir()), WriteLog(old(pos), LogFile.Encode(ent)))
      ensures dev.issued == old(dev.issued) + [WriteLog(old(pos), LogFile.Encode(ent))]
    {
      var data := LogFile.Encode(ent);
      dev.Issue(WriteLog(pos, data));
      pos := pos + |data|;
    }

    method Truncate()
      modifies this, dev
      ensures pos == 0
      ensures dev.Dir() == Exec(old(dev.Dir()), TruncateLog)
      ensures dev.issued == old(dev.issued) + [TruncateLog]
    {
      dev.Issue(TruncateLog);
      pos := 0;
    }

    /** Reads the next record. A torn or corrupt one counts as the end of the log;
        reading moves the position even then. */
    method Read() returns (ent: Option<LogFile.Entry>)
      requires pos <= |dev.log|
      requires LogFile.Decode(dev.log[pos..]) != LogFile.Panics
      modifies this
      ensures pos <= |dev.log|
      ensures ent == match LogFile.Decode(dev.log[old(pos)..])
                     case Whole(e, _) => Some(e)
                     case _ => None
      ensures pos == match LogFile.Decode(dev.log[old(pos)..])
                     case Whole(_, n) => old(pos) + n
                     case BadSum(n) => old(pos) + n
                     case UnexpectedEof => |dev.log|
                     case _ => old(pos)
    {
      match LogFile.Decode(dev.log[pos..])
      case Whole(e, n) => ent := Some(e); pos := pos + n;
      case BadSum(n) => ent := None; pos := pos + n;
      case UnexpectedEof => ent := None; pos := |dev.log|;
      case CleanEof => ent := None;
    }
  }

  class MetaStore {
    const dev: Device
    var slots: Slots

    /** Opening loads both slots, ignoring a corrupt one. */
    constructor (dev: Device)
      ensures this.dev == dev && slots == dev.slots
    {
      this.dev, slots := dev, dev.slots;
    }

    function Get(): Meta
      reads this
    {
      MetaSlots.Get(slots)
    }

    /** Writes the slot that is not live, and refuses a version that is not newer. */
    method Set(data: Meta) returns (ok: bool)
      requires slots == dev.slots
      modifies this, dev
      ensures ok <==> Accepts(old(slots), data)
      ensures slots == dev.slots && (ok ==> Get() == data)
      ensures !ok ==> dev.Dir() == old(dev.Dir()) && dev.issued == old(dev.issued)
      ensures ok ==> dev.Dir() == Exec(old(dev.Dir()), WriteSlot(data))
      ensures ok ==> dev.issued == old(dev.issued) + [WriteSlot(data)]
    {
      var cur := Current(slots);
      if cur >= 0 && data.version <= slots[cur].meta.version {
        return false;
      }
      SetThenGet(slots, data);
      var target := if cur == 0 then 1 else 0;
      dev.Issue(WriteSlot(data));
      slots := slots[target := Good(data)];
      return true;
    }
  }
}
