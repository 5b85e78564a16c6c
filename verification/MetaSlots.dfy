/** Double-buffered metadata: two slots, writes alternate, only the older one is
    ever overwritten. */
module MetaSlots {
  /** The version and the live SSTable levels, newest first; a level is named by
      the version that created its file. */
  datatype Meta = Meta(version: nat, tables: seq<nat>)

  /** Blank: never written, or its checksum does not match. */
  datatype Slot = Blank | Good(meta: Meta)

  type Slots = s: seq<Slot> | |s| == 2 witness [Blank, Blank]

  function Current(s: Slots): (i: int)
    ensures -1 <= i < 2 && (i >= 0 ==> s[i].Good?)
    ensures i == -1 ==> s[0].Blank? && s[1].Blank?
  {
    if s[0].Good? && s[1].Good? then (if s[0].meta.version >= s[1].meta.version then 0 else 1)
    else if s[0].Good? then 0
    else if s[1].Good? then 1
    else -1
  }

  function Get(s: Slots): Meta {
    if Current(s) >= 0 then s[Current(s)].meta else Meta(0, [])
  }

  /** The slot that Set writes. */
  function Target(s: Slots): (t: nat)
    ensures t < 2 && t != Current(s)
  {
    if Current(s) == 0 then 1 else 0
  }

  /** Set refuses a version that does not exceed the current one. */
  predicate Accepts(s: Slots, data: Meta) {
    Current(s) == -1 || data.version > Get(s).version
  }

  /** Get returns the newest readable record, the first slot's in a tie, an empty one when
      there is none, and a new version is accepted exactly when it exceeds every readable one. */
  lemma NewestWins(s: Slots, data: Meta)
    ensures forall i :: 0 <= i < 2 && s[i].Good? ==> Get(s).version >= s[i].meta.version
    ensures s[0] == Good(Get(s)) || s[1] == Good(Get(s)) || (s[0] == s[1] == Blank && Get(s) == Meta(0, []))
    ensures s[0].Good? && s[1].Good? && s[0].meta.version == s[1].meta.version ==> Get(s) == s[0].meta && Target(s) == 1
    ensures Accepts(s, data) <==> forall i :: 0 <= i < 2 && s[i].Good? ==> data.version > s[i].meta.version
  {
  }

  /** What a write interrupted by a crash leaves in its slot. */
  predicate SlotAfterCrash(was: Slot, data: Meta, left: Slot) {
    left == was || left == Blank || left == Good(data)
  }

  /** A completed Set is what Get returns from then on. */
  lemma SetThenGet(s: Slots, data: Meta)
    requires Accepts(s, data)
    ensures Get(s[Target(s) := Good(data)]) == data
  {
  }

  /** After a torn Set, Get returns the record before or the one in flight. */
  lemma TornSetKeepsOne(s: Slots, data: Meta, left: Slot)
    requires Accepts(s, data) && SlotAfterCrash(s[Target(s)], data, left)
    ensures Get(s[Target(s) := left]) == if left == Good(data) then data else Get(s)
  {
  }

  // ---- whole runs ----

  datatype Event = Completed(data: Meta) | Interrupted(data: Meta, left: Slot)

  predicate CanHappen(s: Slots, e: Event) {
    Accepts(s, e.data) && (e.Interrupted? ==> SlotAfterCrash(s[Target(s)], e.data, e.left))
  }

  function Step(s: Slots, e: Event): Slots {
    s[Target(s) := if e.Completed? then Good(e.data) else e.left]
  }

  predicate LegalRun(s: Slots, es: seq<Event>)
    decreases |es|
  {
    es == [] || (CanHappen(s, es[0]) && LegalRun(Step(s, es[0]), es[1..]))
  }

  function Run(s: Slots, es: seq<Event>): Slots
    decreases |es|
  {
    if es == [] then s else Run(Step(s, es[0]), es[1..])
  }

  /** The records an atomic register may hold after the run: an interrupted Set
      happened or it did not. */
  function Outcomes(m: Meta, es: seq<Event>): set<Meta>
    decreases |es|
  {
    if es == [] then {m}
    else if es[0].Completed? then Outcomes(es[0].data, es[1..])
    else Outcomes(m, es[1..]) + Outcomes(es[0].data, es[1..])
  }

  /** Over every run of Set calls, each possibly torn by a crash and reopened, the
      pair of slots behaves as one atomic register, and what it holds never goes
      back to an older version. */
  lemma {:induction false} SlotsAreAtomic(s: Slots, es: seq<Event>)
    requires LegalRun(s, es)
    ensures Get(Run(s, es)) in Outcomes(Get(s), es)
    ensures Get(Run(s, es)).version >= Get(s).version
    decreases |es|
  {
    if es != [] {
      var e := es[0];
      if e.Completed? {
        SetThenGet(s, e.data);
      } else {
        TornSetKeepsOne(s, e.data, e.left);
      }
      SlotsAreAtomic(Step(s, e), es[1..]);
    }
  }
}
