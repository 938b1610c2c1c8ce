/** One handler and one application working on the exception log at the same time.

    Every store of the handler and every load of the application is a step of its own; a run is
    any interleaving of them. `committed` and `departed` only record history: no step reads them. */
module ExceptionProtocol {
  import opened Bits
  import opened ExceptionRing

  /** Where the handler is: the constructor names the store it makes next. */
  datatype Writer =
    | Idle
    | Clearing(e: Exception)
    | Tagging(e: Exception)
    | FillingContext(e: Exception)
    | FillingSize(e: Exception)
    | FillingTask(e: Exception)
    | Committing(e: Exception)
    | Expiring

  /** Where the application is: the constructor names the access it makes next. */
  datatype Reader =
    | Resting
    | ReadingId
    | ReadingTask(id: uint32)
    | ReadingContext(id: uint32, sysTaskId: nat)
    | Popping(id: uint32, sysTaskId: nat, context: seq<byte>)
    | Resetting(upTo: uint32)

  /** How an entry left the queue: reported by GetSummary, or discarded by Reset. */
  datatype Departure = Summarized(id: uint32, sysTaskId: nat, context: seq<byte>) | Dropped

  datatype System = System(ring: Ring, writer: Writer, reader: Reader,
                           committed: seq<Exception>, departed: seq<Departure>)

  datatype Action = Raise(e: Exception) | HandlerStep | StartSummary | StartReset | ReaderStep

  ghost predicate WellFormed(s: System) {
    && s.ring.Shaped()
    && (s.writer != Idle && s.writer != Expiring ==> s.ring.Fits(s.writer.e))
  }

  function Initial(layout: Layout): System
  {
    System(Ring(layout, 0, 0, seq(layout.Entries(), _ => layout.Blank())), Idle, Resting, [], [])
  }

  /** A step that is not enabled leaves the system alone; in particular a second exception is not
      taken while a handler is running. */
  function Step(s: System, a: Action): (s': System)
    requires WellFormed(s)
    ensures WellFormed(s') && s'.ring.layout == s.ring.layout
  {
    match a
    case Raise(e) =>
      if s.writer != Idle || !s.ring.Fits(e) || s.ring.Count() >= s.ring.layout.Entries() then s
      else s.(writer := Clearing(e))
    case HandlerStep => HandlerStore(s)
    case StartSummary =>
      if s.reader != Resting || s.ring.Count() == 0 then s else s.(reader := ReadingId)
    case StartReset =>
      if s.reader != Resting then s else s.(reader := Resetting(s.ring.numWritten))
    case ReaderStep => ReaderAccess(s)
  }

  function HandlerStore(s: System): (s': System)
    requires WellFormed(s)
    ensures WellFormed(s') && s'.ring.layout == s.ring.layout
  {
    match s.writer
    case Idle => s
    case Clearing(e) => s.(ring := s.ring.Cleared(), writer := Tagging(e))
    case Tagging(e) => s.(ring := s.ring.Tagged(), writer := FillingContext(e))
    case FillingContext(e) => s.(ring := s.ring.WithContext(e), writer := FillingSize(e))
    case FillingSize(e) => s.(ring := s.ring.WithSize(e), writer := FillingTask(e))
    case FillingTask(e) => s.(ring := s.ring.WithTask(e), writer := Committing(e))
    case Committing(e) =>
      s.(ring := s.ring.Committed(), writer := Expiring, committed := s.committed + [e])
    case Expiring => s.(ring := s.ring.Expired(), writer := Idle)
  }

  function ReaderAccess(s: System): (s': System)
    requires WellFormed(s)
    ensures WellFormed(s') && s'.ring.layout == s.ring.layout
  {
    var oldest := s.ring.At(s.ring.numRead);
    match s.reader
    case Resting => s
    case ReadingId => s.(reader := ReadingTask(oldest.contextId))
    case ReadingTask(id) => s.(reader := ReadingContext(id, oldest.sysTaskId))
    case ReadingContext(id, task) =>
      s.(reader := Popping(id, task, oldest.contextInfo[..oldest.contextSize]))
    case Popping(id, task, context) =>
      s.(ring := s.ring.Popped(), reader := Resting, departed := s.departed + [Summarized(id, task, context)])
    case Resetting(upTo) =>
      s.(ring := s.ring.(numRead := upTo), reader := Resting,
         departed := s.departed + seq(Sub32(upTo, s.ring.numRead), _ => Dropped))
  }

  ghost function Run(s: System, actions: seq<Action>): (s': System)
    requires WellFormed(s)
    ensures WellFormed(s') && s'.ring.layout == s.ring.layout
    decreases |actions|
  {
    if actions == [] then s else Run(Step(s, actions[0]), actions[1..])
  }

  // ---------------------------------------------------------------- the invariant

  function Size(s: System): (n: nat)
    ensures n > 0
  {
    s.ring.layout.Entries()
  }

  /** The slot of the `i`-th exception ever committed, counting without wrap-around. */
  function Cell(s: System, i: int): LogData
    requires |s.ring.entries| == Size(s)
  {
    s.ring.entries[i % Size(s)]
  }

  function IdOfWrite(layout: Layout, i: nat): uint32 {
    layout.IdOf(Wrap32(i))
  }

  ghost predicate Holds(d: LogData, e: Exception) {
    && d.sysTaskId == e.sysTaskId
    && d.contextSize == |e.context| <= |d.contextInfo|
    && d.contextInfo[..|e.context|] == e.context
  }

  predicate Overwriting(w: Writer) {
    w.Tagging? || w.FillingContext? || w.FillingSize? || w.FillingTask? || w.Committing?
  }

  ghost predicate CountersAgree(s: System) {
    var w, r := |s.committed|, |s.departed|;
    && s.ring.numWritten == Wrap32(w)
    && s.ring.numRead == Wrap32(r)
    && r <= w <= r + Size(s)
    && (Overwriting(s.writer) || s.writer.Clearing? ==> w < r + Size(s))
  }

  ghost predicate PayloadsKept(s: System)
    requires WellFormed(s)
  {
    var w := |s.committed|;
    forall i :: 0 <= i < w && (if Overwriting(s.writer) then w - Size(s) < i else w - Size(s) <= i)
      ==> Holds(Cell(s, i), s.committed[i])
  }

  ghost predicate IdsKept(s: System)
    requires WellFormed(s)
  {
    var w := |s.committed|;
    && (forall i :: 0 <= i < w && w - Size(s) < i ==> Cell(s, i).contextId == IdOfWrite(s.ring.layout, i))
    && (forall i :: w < i < Size(s) ==> Cell(s, i).contextId == 0)
  }

  /** What the slot of the next write holds at each point of the handler. */
  ghost predicate NextSlot(s: System)
    requires WellFormed(s)
  {
    var w := |s.committed|;
    var next := Cell(s, w);
    var tag := IdOfWrite(s.ring.layout, w);
    match s.writer
    case Idle => next.contextId == 0
    case Clearing(e) => next.contextId == 0
    case Tagging(e) => next.contextId == 0
    case FillingContext(e) => next.contextId == tag
    case FillingSize(e) =>
      next.contextId == tag && next.contextInfo[..|e.context|] == e.context
    case FillingTask(e) =>
      next.contextId == tag && next.contextInfo[..|e.context|] == e.context && next.contextSize == |e.context|
    case Committing(e) => next.contextId == tag && Holds(next, e)
    case Expiring =>
      next.contextId == if w >= Size(s) then IdOfWrite(s.ring.layout, w - Size(s)) else 0
  }

  ghost predicate ReaderKept(s: System)
    requires WellFormed(s)
  {
    var w, r := |s.committed|, |s.departed|;
    var tag := IdOfWrite(s.ring.layout, r);
    match s.reader
    case Resting => true
    case ReadingId => r < w
    case ReadingTask(id) => r < w && (id == tag || id == 0)
    case ReadingContext(id, task) =>
      r < w && (id == tag || id == 0) && task == s.committed[r].sysTaskId
    case Popping(id, task, context) =>
      r < w && (id == tag || id == 0) && task == s.committed[r].sysTaskId && context == s.committed[r].context
    case Resetting(upTo) => exists u :: r <= u <= w && upTo == Wrap32(u)
  }

  /** Everything that left the queue as a summary is the exception committed at that position. */
  ghost predicate DeparturesFaithful(s: System) {
    && |s.departed| <= |s.committed|
    && forall i :: 0 <= i < |s.departed| && s.departed[i].Summarized? ==>
         && s.departed[i].sysTaskId == s.committed[i].sysTaskId
         && s.departed[i].context == s.committed[i].context
         && (s.departed[i].id == IdOfWrite(s.ring.layout, i) || s.departed[i].id == 0)
  }

  ghost predicate Inv(s: System) {
    && WellFormed(s)
    && CountersAgree(s)
    && PayloadsKept(s)
    && IdsKept(s)
    && NextSlot(s)
    && ReaderKept(s)
    && DeparturesFaithful(s)
  }

  // ---------------------------------------------------------------- framing

  lemma EntriesBelow32(layout: Layout)
    requires layout.Valid()
    ensures layout.Entries() <= Pow2(layout.indexBits) < TWO32
  {
    Pow2Monotone(layout.entryBits, layout.indexBits);
    Pow2Monotone(layout.indexBits, 31);
    assert Pow2(32) == 2 * Pow2(31);
    Pow2Is32();
  }

  /** A wrapped counter addresses the slot of the unwrapped one. */
  lemma SlotOfWrapped(layout: Layout, i: nat)
    requires layout.Valid()
    ensures layout.Slot(Wrap32(i)) == i % layout.Entries()
  {
    Pow2Is32();
    ModMod(i, layout.entryBits, 32);
  }

  /** A store to the slot of write `w` is seen at `w` and nowhere else in the window around it. */
  lemma StoreFrame(s: System, s': System, w: nat, d: LogData)
    requires WellFormed(s) && WellFormed(s')
    requires s'.ring == s.ring.Put(Wrap32(w), d)
    ensures Cell(s', w) == d
    ensures forall i :: w - Size(s) < i < w + Size(s) && i != w ==> Cell(s', i) == Cell(s, i)
    ensures Cell(s', w - Size(s)) == d && Cell(s, w - Size(s)) == Cell(s, w)
  {
    var n := Size(s);
    SlotOfWrapped(s.ring.layout, w);
    forall i | w - n < i < w + n && i != w
      ensures Cell(s', i) == Cell(s, i)
    {
      if i < w { ModDistinct(i, w, n); } else { ModDistinct(w, i, n); }
    }
    ModAddMultiple(w, n, -1);
  }
}
