/** The exception log is a first-in first-out queue of bounded capacity in every interleaving of
    one handler and one application, however often the counters wrap. */
module ExceptionSafety {
  import opened Bits
  import opened ExceptionRing
  import opened ExceptionProtocol

  // ---------------------------------------------------------------- each step keeps the invariant

  lemma InitialInv(layout: Layout)
    requires layout.Valid()
    ensures Inv(Initial(layout))
  {
    var s := Initial(layout);
    assert s.ring.Shaped();
    forall i: int
      ensures Cell(s, i).contextId == 0
    {
    }
  }

  lemma ClearingKeeps(s: System)
    requires Inv(s) && s.writer.Clearing?
    ensures Inv(HandlerStore(s))
  {
    var s' := HandlerStore(s);
    StoreFrame(s, s', |s.committed|, s.ring.layout.Blank());
  }

  lemma TaggingKeeps(s: System)
    requires Inv(s) && s.writer.Tagging?
    ensures Inv(HandlerStore(s))
  {
    var w := |s.committed|;
    SlotOfWrapped(s.ring.layout, w);
    StoreFrame(s, HandlerStore(s), w, Cell(s, w).(contextId := IdOfWrite(s.ring.layout, w)));
  }

  lemma FillingKeeps(s: System)
    requires Inv(s) && (s.writer.FillingContext? || s.writer.FillingSize? || s.writer.FillingTask?)
    ensures Inv(HandlerStore(s))
  {
    var w, e := |s.committed|, s.writer.e;
    SlotOfWrapped(s.ring.layout, w);
    var was := Cell(s, w);
    var now := match s.writer
      case FillingContext(_) => was.(contextInfo := e.context + was.contextInfo[|e.context|..])
      case FillingSize(_) => was.(contextSize := |e.context|)
      case _ => was.(sysTaskId := e.sysTaskId);
    StoreFrame(s, HandlerStore(s), w, now);
  }

  lemma CommittingKeepsSlots(s: System)
    requires Inv(s) && s.writer.Committing?
    ensures PayloadsKept(HandlerStore(s)) && IdsKept(HandlerStore(s)) && NextSlot(HandlerStore(s))
  {
    var s', w, n := HandlerStore(s), |s.committed|, Size(s);
    assert forall i :: Cell(s', i) == Cell(s, i);
    ModAddMultiple(w + 1, n, -1);
    assert Cell(s, w + 1 - n) == Cell(s, w + 1);
  }

  lemma CommittingKeeps(s: System)
    requires Inv(s) && s.writer.Committing?
    ensures Inv(HandlerStore(s))
  {
    CommittingKeepsSlots(s);
    CounterIncrement(|s.committed|);
    if s.reader.Resetting? {
      var u :| |s.departed| <= u <= |s.committed| && s.reader.upTo == Wrap32(u);
      assert u <= |HandlerStore(s).committed|;
    }
  }

  lemma ExpiringKeeps(s: System)
    requires Inv(s) && s.writer.Expiring?
    ensures Inv(HandlerStore(s))
  {
    var w := |s.committed|;
    SlotOfWrapped(s.ring.layout, w);
    StoreFrame(s, HandlerStore(s), w, Cell(s, w).(contextId := 0));
  }

  lemma HandlerKeeps(s: System)
    requires Inv(s)
    ensures Inv(HandlerStore(s))
  {
    match s.writer
    case Idle =>
    case Clearing(_) => ClearingKeeps(s);
    case Tagging(_) => TaggingKeeps(s);
    case Committing(_) => CommittingKeeps(s);
    case Expiring => ExpiringKeeps(s);
    case _ => FillingKeeps(s);
  }

  /** The oldest unread entry holds what was committed; its ID is the one it was committed under,
      or 0 when the ring is full and the handler is not about to expire it. */
  lemma OldestEntry(s: System)
    requires Inv(s) && |s.departed| < |s.committed|
    ensures
      var r, w := |s.departed|, |s.committed|;
      var oldest := s.ring.At(s.ring.numRead);
      && Holds(oldest, s.committed[r])
      && oldest.contextId ==
           if w - r == Size(s) && s.writer == Idle then 0 else IdOfWrite(s.ring.layout, r)
  {
    var r, w := |s.departed|, |s.committed|;
    SlotOfWrapped(s.ring.layout, r);
    assert s.ring.At(s.ring.numRead) == Cell(s, r);
    if w - r == Size(s) {
      ModAddMultiple(w, Size(s), -1);
      assert Cell(s, r) == Cell(s, w);
    }
  }

  /** The reader's accesses touch no slot, so what the slots hold is kept. */
  lemma SlotsUntouched(s: System, s': System)
    requires Inv(s) && WellFormed(s')
    requires s'.ring.entries == s.ring.entries && s'.ring.layout == s.ring.layout
    requires s'.writer == s.writer && s'.committed == s.committed
    ensures PayloadsKept(s') && IdsKept(s') && NextSlot(s')
  {
    assert forall i :: Cell(s', i) == Cell(s, i);
  }

  lemma PoppingKeeps(s: System)
    requires Inv(s) && s.reader.Popping?
    ensures Inv(ReaderAccess(s))
  {
    SlotsUntouched(s, ReaderAccess(s));
    CounterIncrement(|s.departed|);
  }

  lemma ResettingKeeps(s: System)
    requires Inv(s) && s.reader.Resetting?
    ensures Inv(ReaderAccess(s))
  {
    var u :| |s.departed| <= u <= |s.committed| && s.reader.upTo == Wrap32(u);
    EntriesBelow32(s.ring.layout);
    CounterDifference(u, |s.departed|);
    SlotsUntouched(s, ReaderAccess(s));
  }

  lemma LoadingKeeps(s: System)
    requires Inv(s) && !s.reader.Popping? && !s.reader.Resetting?
    ensures Inv(ReaderAccess(s))
  {
    SlotsUntouched(s, ReaderAccess(s));
    if |s.departed| < |s.committed| {
      OldestEntry(s);
    }
  }

  lemma RaiseKeeps(s: System, e: Exception)
    requires Inv(s)
    ensures Inv(Step(s, Raise(e)))
  {
    EntriesBelow32(s.ring.layout);
    CounterDifference(|s.committed|, |s.departed|);
    assert forall i :: Cell(Step(s, Raise(e)), i) == Cell(s, i);
  }

  lemma StartKeeps(s: System, a: Action)
    requires Inv(s) && (a.StartSummary? || a.StartReset?)
    ensures Inv(Step(s, a))
  {
    var w, r := |s.committed|, |s.departed|;
    assert r <= w <= w && s.ring.numWritten == Wrap32(w);
    assert r == w ==> s.ring.Count() == 0;
    SlotsUntouched(s, Step(s, a));
  }

  lemma StepKeeps(s: System, a: Action)
    requires Inv(s)
    ensures Inv(Step(s, a))
  {
    if a.HandlerStep? {
      HandlerKeeps(s);
    } else if a.Raise? {
      RaiseKeeps(s, a.e);
    } else if !a.ReaderStep? {
      StartKeeps(s, a);
    } else if s.reader.Popping? {
      PoppingKeeps(s);
    } else if s.reader.Resetting? {
      ResettingKeeps(s);
    } else {
      LoadingKeeps(s);
    }
  }

  lemma {:induction false} RunKeeps(s: System, actions: seq<Action>)
    requires Inv(s)
    ensures Inv(Run(s, actions))
    decreases |actions|
  {
    if actions != [] {
      StepKeeps(s, actions[0]);
      RunKeeps(Step(s, actions[0]), actions[1..]);
    }
  }

  // ---------------------------------------------------------------- the queue

  /** The abstract state: what has been committed and has not left yet. */
  ghost function Queue(s: System): seq<Exception>
    requires |s.departed| <= |s.committed|
  {
    s.committed[|s.departed|..]
  }

  lemma CountIsLength(s: System)
    requires Inv(s)
    ensures s.ring.Count() == |Queue(s)| <= Size(s)
  {
    EntriesBelow32(s.ring.layout);
    CounterDifference(|s.committed|, |s.departed|);
  }

  /** Each step is one queue operation or none. `GetCount` always reports the queue's length, and
      an exception is turned away exactly when the queue is full. */
  lemma StepRefinesQueue(s: System, a: Action)
    requires Inv(s)
    ensures Inv(Step(s, a))
    ensures |Queue(s)| <= Size(s) && s.ring.Count() == |Queue(s)|
    ensures
      var s' := Step(s, a);
      if a.HandlerStep? && s.writer.Committing? then
        && |Queue(s)| < Size(s)
        && Queue(s') == Queue(s) + [s.writer.e]
      else if a.ReaderStep? && s.reader.Popping? then
        && |Queue(s)| > 0
        && Queue(s') == Queue(s)[1..]
        && s.reader.sysTaskId == Queue(s)[0].sysTaskId
        && s.reader.context == Queue(s)[0].context
      else if a.ReaderStep? && s.reader.Resetting? then
        exists k :: 0 <= k <= |Queue(s)| && Queue(s') == Queue(s)[k..] && s.reader.upTo == Wrap32(|s.departed| + k)
      else
        Queue(s') == Queue(s)
    ensures a.Raise? && s.writer == Idle && s.ring.Fits(a.e) ==>
      (Step(s, a).writer == Idle <==> |Queue(s)| == Size(s))
  {
    StepKeeps(s, a);
    CountIsLength(s);
    if a.HandlerStep? && s.writer.Committing? {
      CommitEnqueues(s);
    } else if a.ReaderStep? && s.reader.Popping? {
      PopDequeues(s);
    } else if a.ReaderStep? && s.reader.Resetting? {
      ResetDropsPrefix(s);
    } else {
      StepKeepsHistory(s, a);
    }
  }

  lemma CommitEnqueues(s: System)
    requires Inv(s) && s.writer.Committing?
    ensures |Queue(s)| < Size(s)
    ensures |s.departed| <= |HandlerStore(s).committed|
    ensures Queue(HandlerStore(s)) == Queue(s) + [s.writer.e]
  {
  }

  lemma PopDequeues(s: System)
    requires Inv(s) && s.reader.Popping?
    ensures |Queue(s)| > 0
    ensures |ReaderAccess(s).departed| <= |s.committed|
    ensures Queue(ReaderAccess(s)) == Queue(s)[1..]
    ensures s.reader.sysTaskId == Queue(s)[0].sysTaskId && s.reader.context == Queue(s)[0].context
  {
  }

  lemma ResetDropsPrefix(s: System)
    requires Inv(s) && s.reader.Resetting?
    ensures Inv(ReaderAccess(s))
    ensures exists k :: 0 <= k <= |Queue(s)| && Queue(ReaderAccess(s)) == Queue(s)[k..]
                        && s.reader.upTo == Wrap32(|s.departed| + k)
  {
    ResettingKeeps(s);
    var u :| |s.departed| <= u <= |s.committed| && s.reader.upTo == Wrap32(u);
    EntriesBelow32(s.ring.layout);
    CounterDifference(u, |s.departed|);
    var k := u - |s.departed|;
    assert Queue(ReaderAccess(s)) == Queue(s)[k..];
  }

  lemma StepKeepsHistory(s: System, a: Action)
    requires WellFormed(s)
    requires !(a.HandlerStep? && s.writer.Committing?) && !(a.ReaderStep? && s.reader.Resetting?)
    ensures Step(s, a).committed == s.committed
    ensures if a.ReaderStep? && s.reader.Popping?
            then |Step(s, a).departed| == |s.departed| + 1
            else Step(s, a).departed == s.departed
  {
  }

  /** The exceptions reported by a sequence of departures. */
  function Delivered(departed: seq<Departure>): seq<Exception>
    requires forall i :: 0 <= i < |departed| ==> departed[i].Summarized?
  {
    seq(|departed|, i requires 0 <= i < |departed| => Exception(departed[i].sysTaskId, departed[i].context))
  }

  /** For every interleaving from power-on: at most 2^entryBits entries wait; the i-th departure is
      the i-th commit; and if nothing was reset, what was delivered followed by what waits is
      exactly what was committed. */
  lemma RunIsQueue(layout: Layout, actions: seq<Action>)
    requires layout.Valid()
    ensures
      var s := Run(Initial(layout), actions);
      && Inv(s)
      && s.ring.layout == layout
      && s.ring.Count() == |Queue(s)| <= layout.Entries()
      && DeparturesFaithful(s)
      && (StartReset !in actions ==>
          && (forall i :: 0 <= i < |s.departed| ==> s.departed[i].Summarized?)
          && Delivered(s.departed) + Queue(s) == s.committed)
  {
    InitialInv(layout);
    RunKeeps(Initial(layout), actions);
    CountIsLength(Run(Initial(layout), actions));
    if StartReset !in actions {
      NothingDropped(Initial(layout), actions);
      DeliveredInOrder(Run(Initial(layout), actions));
    }
  }

  lemma DeliveredInOrder(s: System)
    requires DeparturesFaithful(s)
    requires forall i :: 0 <= i < |s.departed| ==> s.departed[i].Summarized?
    ensures Delivered(s.departed) + Queue(s) == s.committed
  {
  }

  lemma {:induction false} NothingDropped(s: System, actions: seq<Action>)
    requires WellFormed(s) && StartReset !in actions && !s.reader.Resetting?
    requires forall i :: 0 <= i < |s.departed| ==> s.departed[i].Summarized?
    ensures forall i :: 0 <= i < |Run(s, actions).departed| ==> Run(s, actions).departed[i].Summarized?
    decreases |actions|
  {
    if actions != [] {
      assert actions[0] != StartReset;
      NothingDropped(Step(s, actions[0]), actions[1..]);
    }
  }

  /** Nothing that was committed or has departed is ever rewritten. */
  lemma {:induction false} HistoryGrows(s: System, actions: seq<Action>)
    requires WellFormed(s)
    ensures s.committed <= Run(s, actions).committed
    ensures s.departed <= Run(s, actions).departed
    decreases |actions|
  {
    if actions != [] {
      StepGrows(s, actions[0]);
      HistoryGrows(Step(s, actions[0]), actions[1..]);
    }
  }

  lemma StepGrows(s: System, a: Action)
    requires WellFormed(s)
    ensures s.committed <= Step(s, a).committed
    ensures s.departed <= Step(s, a).departed
  {
  }

  // ---------------------------------------------------------------- uninterrupted calls are runs

  /** `n` stores of the handler, with nothing else in between. */
  function Stores(s: System, n: nat): (s': System)
    requires WellFormed(s)
    ensures WellFormed(s')
    decreases n
  {
    if n == 0 then s else Stores(HandlerStore(s), n - 1)
  }

  lemma {:induction false} StoresAreRun(s: System, n: nat)
    requires WellFormed(s)
    ensures Run(s, seq(n, _ => HandlerStep)) == Stores(s, n)
    decreases n
  {
    if n > 0 {
      assert seq(n, _ => HandlerStep)[1..] == seq(n - 1, _ => HandlerStep);
      StoresAreRun(HandlerStore(s), n - 1);
    }
  }

  /** `n` accesses of the application, with nothing else in between. */
  function Accesses(s: System, n: nat): (s': System)
    requires WellFormed(s)
    ensures WellFormed(s')
    decreases n
  {
    if n == 0 then s else Accesses(ReaderAccess(s), n - 1)
  }

  lemma {:induction false} AccessesAreRun(s: System, n: nat)
    requires WellFormed(s)
    ensures Run(s, seq(n, _ => ReaderStep)) == Accesses(s, n)
    decreases n
  {
    if n > 0 {
      assert seq(n, _ => ReaderStep)[1..] == seq(n - 1, _ => ReaderStep);
      AccessesAreRun(ReaderAccess(s), n - 1);
    }
  }

  lemma SevenStores(s: System)
    requires WellFormed(s) && s.writer.Clearing?
    ensures
      var e := s.writer.e;
      var filled := s.ring.Cleared().Tagged().WithContext(e).WithSize(e).WithTask(e);
      Stores(s, 7) == s.(ring := filled.Committed().Expired(), writer := Idle, committed := s.committed + [e])
  {
    var s1 := HandlerStore(s);
    var s2 := HandlerStore(s1);
    var s3 := HandlerStore(s2);
    var s4 := HandlerStore(s3);
    var s5 := HandlerStore(s4);
    var s6 := HandlerStore(s5);
    var s7 := HandlerStore(s6);
    assert Stores(s6, 1) == Stores(s7, 0);
    assert Stores(s5, 2) == Stores(s6, 1);
    assert Stores(s4, 3) == Stores(s5, 2);
    assert Stores(s3, 4) == Stores(s4, 3);
    assert Stores(s2, 5) == Stores(s3, 4);
    assert Stores(s1, 6) == Stores(s2, 5);
  }

  lemma {:induction false} IdleStores(s: System, n: nat)
    requires WellFormed(s) && s.writer == Idle
    ensures Stores(s, n) == s
    decreases n
  {
    if n > 0 {
      IdleStores(s, n - 1);
    }
  }

  /** The handler run that `ExceptionStorage.SigHandler` performs is its steps taken in a row. */
  lemma HandlerRunIsSteps(s: System, e: Exception)
    requires Inv(s) && s.writer == Idle && s.ring.Fits(e)
    ensures
      var s' := Run(s, [Raise(e)] + seq(7, _ => HandlerStep));
      && Inv(s')
      && s'.ring == s.ring.HandlerRun(e)
      && s' == AfterHandler(s, e)
  {
    var steps := seq(7, _ => HandlerStep);
    RunKeeps(s, [Raise(e)] + steps);
    assert ([Raise(e)] + steps)[1..] == steps;
    var t := Step(s, Raise(e));
    StoresAreRun(t, 7);
    if s.ring.Count() >= Size(s) {
      IdleStores(t, 7);
    } else {
      SevenStores(t);
    }
  }

  /** The reset that `ExceptionStorage.Reset` performs is its two steps taken in a row: it empties the
      queue. */
  lemma ResetIsSteps(s: System)
    requires Inv(s) && s.reader == Resting
    ensures
      var s' := Run(s, [StartReset, ReaderStep]);
      && Inv(s')
      && s'.ring == s.ring.(numRead := s.ring.numWritten)
      && s'.writer == s.writer && s'.reader == Resting && s'.committed == s.committed
      && Queue(s') == []
  {
    InterruptedReset(s, []);
    assert [StartReset] + [] + [ReaderStep] == [StartReset, ReaderStep];
    CounterOfReset(s);
  }

  lemma CounterOfReset(s: System)
    requires Inv(s) && s.reader == Resting
    ensures
      var s' := Run(s, [StartReset, ReaderStep]);
      s'.ring == s.ring.(numRead := s.ring.numWritten) && s'.writer == s.writer && s'.committed == s.committed
  {
    var t := Step(s, StartReset);
    assert [StartReset, ReaderStep][1..] == [ReaderStep] && [ReaderStep][1..] == [];
    assert Run(t, [ReaderStep]) == Run(Step(t, ReaderStep), []);
  }

  ghost predicate HandlerOnly(actions: seq<Action>) {
    forall i :: 0 <= i < |actions| ==> actions[i].Raise? || actions[i].HandlerStep?
  }

  lemma {:induction false} HandlerOnlyRun(s: System, during: seq<Action>)
    requires WellFormed(s) && HandlerOnly(during)
    ensures Run(s, during).reader == s.reader && Run(s, during).departed == s.departed
    decreases |during|
  {
    if during != [] {
      assert during[0].Raise? || during[0].HandlerStep?;
      HandlerOnlyRun(Step(s, during[0]), during[1..]);
    }
  }

  /** A reset with handlers running between its two accesses drops exactly what was waiting when it
      started; what the handlers commit meanwhile stays. */
  lemma InterruptedReset(s: System, during: seq<Action>)
    requires Inv(s) && s.reader == Resting && HandlerOnly(during)
    ensures
      var s' := Run(s, [StartReset] + during + [ReaderStep]);
      && Inv(s') && s'.reader == Resting
      && s'.departed == s.departed + seq(|Queue(s)|, _ => Dropped)
      && s.committed <= s'.committed
      && Queue(s') == s'.committed[|s.committed|..]
  {
    var t := Step(s, StartReset);
    var u := Run(t, during);
    RunSplit(s, during);
    RunKeeps(s, [StartReset] + during + [ReaderStep]);
    StepKeeps(s, StartReset);
    RunKeeps(t, during);
    HandlerOnlyRun(t, during);
    HistoryGrows(t, during);
    ResetFrom(u, |s.committed|);
  }

  lemma {:induction false} RunLast(s: System, actions: seq<Action>, last: Action)
    requires WellFormed(s)
    ensures Run(s, actions + [last]) == Step(Run(s, actions), last)
    decreases |actions|
  {
    if actions == [] {
      assert [last][1..] == [];
      assert Run(s, [last]) == Run(Step(s, last), []);
      assert actions + [last] == [last];
    } else {
      assert (actions + [last])[1..] == actions[1..] + [last];
      RunLast(Step(s, actions[0]), actions[1..], last);
    }
  }

  lemma RunSplit(s: System, during: seq<Action>)
    requires WellFormed(s)
    ensures Run(s, [StartReset] + during + [ReaderStep]) == ReaderAccess(Run(Step(s, StartReset), during))
  {
    RunLast(s, [StartReset] + during, ReaderStep);
    assert ([StartReset] + during)[1..] == during;
  }

  /** The store of a reset that loaded the write counter when `n` exceptions were committed. */
  lemma ResetFrom(s: System, n: nat)
    requires Inv(s) && s.reader == Resetting(Wrap32(n)) && |s.departed| <= n <= |s.committed|
    ensures
      var s' := ReaderAccess(s);
      && s'.reader == Resting && s'.committed == s.committed
      && s'.departed == s.departed + seq(n - |s.departed|, _ => Dropped)
  {
    EntriesBelow32(s.ring.layout);
    CounterDifference(n, |s.departed|);
  }

  lemma FourAccesses(s: System)
    requires WellFormed(s) && s.reader == ReadingId
    ensures
      var oldest := s.ring.At(s.ring.numRead);
      Accesses(s, 4) ==
      s.(ring := s.ring.Popped(), reader := Resting,
         departed := s.departed
           + [Summarized(oldest.contextId, oldest.sysTaskId, oldest.contextInfo[..oldest.contextSize])])
  {
    var s1 := ReaderAccess(s);
    var s2 := ReaderAccess(s1);
    var s3 := ReaderAccess(s2);
    var s4 := ReaderAccess(s3);
    assert Accesses(s3, 1) == Accesses(s4, 0);
    assert Accesses(s2, 2) == Accesses(s3, 1);
    assert Accesses(s1, 3) == Accesses(s2, 2);
  }

  /** The pop that `ExceptionStorage.GetSummary` performs is its accesses taken in a row. Between
      handler runs the reported ID is the true one, except for the oldest entry of a full ring,
      which is reported as 0. */
  lemma SummaryIsSteps(s: System)
    requires Inv(s) && s.writer == Idle && s.reader == Resting && s.ring.Count() != 0
    ensures
      var s' := Run(s, [StartSummary] + seq(4, _ => ReaderStep));
      var oldest := s.ring.At(s.ring.numRead);
      && Inv(s')
      && s'.ring == s.ring.Popped()
      && s'.writer == Idle && s'.reader == Resting
      && s'.committed == s.committed && |s'.departed| == |s.departed| + 1
      && Queue(s) == [Exception(oldest.sysTaskId, oldest.contextInfo[..oldest.contextSize])] + Queue(s')
      && oldest.contextId ==
           if |Queue(s)| == Size(s) then 0 else IdOfWrite(s.ring.layout, |s.departed|)
  {
    CountIsLength(s);
    OldestEntry(s);
    var steps := seq(4, _ => ReaderStep);
    RunKeeps(s, [StartSummary] + steps);
    assert ([StartSummary] + steps)[1..] == steps;
    var t := Step(s, StartSummary);
    AccessesAreRun(t, 4);
    FourAccesses(t);
  }

  /** The system after one whole handler run. */
  function AfterHandler(s: System, e: Exception): (s': System)
    requires WellFormed(s) && s.ring.Fits(e)
    ensures WellFormed(s')
  {
    s.(ring := s.ring.HandlerRun(e),
       committed := if s.ring.Count() >= s.ring.layout.Entries() then s.committed else s.committed + [e])
  }
}
