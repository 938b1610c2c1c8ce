/** Fetching an exception's context by its ID: which IDs are accepted, and what a copy returns when
    handlers run in the middle of it. */
module ExceptionIds {
  import opened Bits
  import opened ExceptionRing
  import opened ExceptionProtocol
  import opened ExceptionSafety

  // ---------------------------------------------------------------- the numbers

  lemma IdMeaning(layout: Layout, i: nat)
    requires layout.Valid()
    ensures IdOfWrite(layout, i) == layout.idBase + i % Pow2(layout.indexBits) > 0
  {
    Pow2Is32();
    AndMask(Wrap32(i), layout.indexBits);
    ModMod(i, layout.indexBits, 32);
    IdFits(layout, i % Pow2(layout.indexBits));
  }

  lemma IdFits(layout: Layout, low: nat)
    requires layout.Valid() && low < Pow2(layout.indexBits)
    ensures Wrap32(layout.idBase + low) == layout.idBase + low > 0
  {
  }

  /** IDs repeat exactly every 2^indexBits writes. */
  lemma SameId(layout: Layout, i: nat, j: nat)
    requires layout.Valid()
    ensures IdOfWrite(layout, i) == IdOfWrite(layout, j) <==>
            i % Pow2(layout.indexBits) == j % Pow2(layout.indexBits)
  {
    IdMeaning(layout, i);
    IdMeaning(layout, j);
  }

  lemma SequenceOfId(layout: Layout, i: nat)
    requires layout.Valid()
    ensures Sub32(IdOfWrite(layout, i), layout.idBase) == i % Pow2(layout.indexBits)
  {
    IdMeaning(layout, i);
    OffsetBack(layout.idBase, i % Pow2(layout.indexBits));
  }

  lemma OffsetBack(base: nat, low: nat)
    requires base + low < TWO32
    ensures Sub32(base + low, base) == low
  {
  }

  /** The masked ID selects the slot that the full sequence number selects. */
  lemma IdSelectsSlot(layout: Layout, i: nat)
    requires layout.Valid()
    ensures
      var sequence := Sub32(IdOfWrite(layout, i), layout.idBase);
      && sequence <= Pow2(layout.indexBits) - 1
      && layout.Slot(sequence) == layout.Slot(Wrap32(i)) == i % layout.Entries()
  {
    SequenceOfId(layout, i);
    SlotOfWrapped(layout, i);
    ModMod(i, layout.entryBits, layout.indexBits);
  }

  // ---------------------------------------------------------------- acceptance

  /** The writes whose ID is in its slot: the last 2^entryBits - 1 committed ones, the one being
      filled in, and, until the handler expires it, the one just before those. */
  ghost predicate Tagged(s: System, i: int) {
    var w := |s.committed|;
    && 0 <= i
    && (w - Size(s) < i < w
        || (i == w && Overwriting(s.writer) && !s.writer.Tagging?)
        || (i == w - Size(s) && s.writer == Expiring))
  }

  lemma TaggedIsFound(s: System, i: nat)
    requires Inv(s) && Tagged(s, i)
    ensures s.ring.Find(IdOfWrite(s.ring.layout, i)) == Some(Cell(s, i))
  {
    IdSelectsSlot(s.ring.layout, i);
    ModAddMultiple(|s.committed|, Size(s), -1);
  }

  /** Every residue class has a member among the `n` indices up to `w`. */
  lemma WindowMember(w: int, c: nat, n: nat) returns (j: int)
    requires c < n
    ensures w - n < j <= w && j % n == c
  {
    var k, back := (w - c) / n, (w - c) % n;
    assert w - c == k * n + back;
    j := w - back;
    DivModUnique(j, n, k, c);
  }

  lemma FindMeans(ring: Ring, id: uint32)
    requires ring.Shaped() && ring.Find(id).Some?
    ensures ring.At(Sub32(id, ring.layout.idBase)).contextId == id != 0
  {
    EntriesBelow32(ring.layout);
  }

  lemma FoundInWindow(s: System, id: uint32) returns (j: int)
    requires Inv(s) && s.ring.Find(id).Some?
    ensures |s.committed| - Size(s) < j <= |s.committed|
    ensures Cell(s, j).contextId == id != 0
  {
    FindMeans(s.ring, id);
    var slot := s.ring.layout.Slot(Sub32(id, s.ring.layout.idBase));
    j := WindowMember(|s.committed|, slot, Size(s));
  }

  lemma NonzeroIsTagged(s: System, j: int) returns (i: nat)
    requires Inv(s) && |s.committed| - Size(s) < j <= |s.committed|
    requires Cell(s, j).contextId != 0
    ensures Tagged(s, i) && Cell(s, j).contextId == IdOfWrite(s.ring.layout, i)
  {
    ModAddMultiple(j, Size(s), 1);
    assert Cell(s, j + Size(s)) == Cell(s, j);
    i := if j == |s.committed| && s.writer == Expiring then j - Size(s) else j;
  }

  lemma FoundIsTagged(s: System, id: uint32) returns (i: nat)
    requires Inv(s) && s.ring.Find(id).Some?
    ensures Tagged(s, i) && id == IdOfWrite(s.ring.layout, i)
  {
    var j := FoundInWindow(s, id);
    i := NonzeroIsTagged(s, j);
  }

  /** In every reachable state an ID is accepted exactly when it is the ID of a tagged write. */
  lemma FoundExactly(s: System, id: uint32)
    requires Inv(s)
    ensures s.ring.Find(id).Some? <==> exists i: nat :: Tagged(s, i) && id == IdOfWrite(s.ring.layout, i)
  {
    if s.ring.Find(id).Some? {
      var i := FoundIsTagged(s, id);
    }
    forall i: nat | Tagged(s, i) && id == IdOfWrite(s.ring.layout, i)
      ensures s.ring.Find(id).Some?
    {
      TaggedIsFound(s, i);
    }
  }

  /** ID 0 is never accepted. */
  lemma ZeroNeverFound(s: System)
    requires Inv(s)
    ensures s.ring.Find(0).None?
  {
    if s.ring.Find(0).Some? {
      var i := FoundIsTagged(s, 0);
      IdMeaning(s.ring.layout, i);
      assert false;
    }
  }

  /** The ID of write `j` is accepted, with that write's data, until 2^entryBits - 1 later writes
      have been committed. */
  lemma FreshIdAccepted(s: System, j: nat)
    requires Inv(s) && j < |s.committed| < j + Size(s)
    ensures
      var found := s.ring.Find(IdOfWrite(s.ring.layout, j));
      found.Some? && Holds(found.value, s.committed[j])
  {
    TaggedIsFound(s, j);
  }

  /** From then on, between handler runs, it is refused until the ID is issued again. */
  lemma StaleIdRefused(s: System, j: nat)
    requires Inv(s) && s.writer == Idle
    requires j + Size(s) <= |s.committed| <= j + Pow2(s.ring.layout.indexBits)
    ensures s.ring.Find(IdOfWrite(s.ring.layout, j)).None?
  {
    var id := IdOfWrite(s.ring.layout, j);
    if s.ring.Find(id).Some? {
      var i := FoundIsTagged(s, id);
      SameId(s.ring.layout, i, j);
      ModDistinct(j, i, Pow2(s.ring.layout.indexBits));
    }
  }

  /** In a ring with a single slot no ID at all is accepted between handler runs. */
  lemma SingleSlotAcceptsNone(s: System, id: uint32)
    requires Inv(s) && s.writer == Idle && Size(s) == 1
    ensures s.ring.Find(id).None?
  {
    FoundExactly(s, id);
  }

  /** Between handler runs, and until it is issued again, the ID of write `j` is accepted exactly
      while fewer than 2^entryBits writes have been made from `j` on. */
  lemma AcceptedWhileFresh(s: System, j: nat)
    requires Inv(s) && s.writer == Idle
    requires j < |s.committed| <= j + Pow2(s.ring.layout.indexBits)
    ensures s.ring.Find(IdOfWrite(s.ring.layout, j)).Some? <==> |s.committed| < j + Size(s)
  {
    if |s.committed| < j + Size(s) {
      FreshIdAccepted(s, j);
    } else {
      StaleIdRefused(s, j);
    }
  }

  /** 2^indexBits writes on, the same ID is accepted again and stands for the newer write. */
  lemma ReissuedIdAccepted(s: System, j: nat)
    requires Inv(s) && Size(s) > 1 && |s.committed| == j + Pow2(s.ring.layout.indexBits) + 1
    ensures
      var newer := j + Pow2(s.ring.layout.indexBits);
      var found := s.ring.Find(IdOfWrite(s.ring.layout, j));
      found.Some? && Holds(found.value, s.committed[newer])
  {
    var period := Pow2(s.ring.layout.indexBits);
    ModAddMultiple(j, period, 1);
    SameId(s.ring.layout, j, j + period);
    FreshIdAccepted(s, j + period);
  }

  /** An application that preempts a handler can be given an entry that is not committed yet: after
      the handler's first two stores the new ID is already accepted. */
  lemma AcceptedBeforeCommit(layout: Layout)
    requires layout.Valid()
    ensures
      var e := Exception(0, []);
      var s := Run(Initial(layout), [Raise(e), HandlerStep, HandlerStep]);
      && s.committed == []
      && s.ring.Find(IdOfWrite(layout, 0)).Some?
  {
    var e := Exception(0, []);
    var s0 := Initial(layout);
    EntriesBelow32(layout);
    assert [Raise(e), HandlerStep, HandlerStep][1..] == [HandlerStep, HandlerStep];
    assert [HandlerStep, HandlerStep][1..] == [HandlerStep];
    InitialInv(layout);
    StepRefinesQueue(s0, Raise(e));
    var s1 := Step(s0, Raise(e));
    var s2 := HandlerStore(s1);
    var s3 := HandlerStore(s2);
    assert Run(s3, []) == s3;
    assert Run(s2, [HandlerStep]) == s3;
    assert Run(s1, [HandlerStep, HandlerStep]) == s3;
    RunKeeps(s0, [Raise(e), HandlerStep, HandlerStep]);
    TaggedIsFound(s3, 0);
  }

  // ---------------------------------------------------------------- copies interrupted by handlers

  ghost predicate AllFit(layout: Layout, es: seq<Exception>) {
    forall e :: e in es ==> |e.context| <= layout.contextCapacity
  }

  /** Whole handler runs, one after the other. */
  function HandlerRuns(ring: Ring, es: seq<Exception>): (r: Ring)
    requires ring.Shaped() && AllFit(ring.layout, es)
    ensures r.Shaped() && r.layout == ring.layout
    decreases |es|
  {
    if es == [] then ring else HandlerRuns(ring.HandlerRun(es[0]), es[1..])
  }

  /** What a handler run that is not turned away leaves in the ring: the whole slot, with zeros after
      the captured context, and the ID of the slot after it. */
  lemma HandlerWrites(ring: Ring, e: Exception)
    requires ring.Shaped() && ring.Fits(e) && ring.Count() < ring.layout.Entries()
    ensures
      var r := ring.HandlerRun(e);
      var slot, next := ring.layout.Slot(ring.numWritten), ring.layout.Slot(r.numWritten);
      && r.numWritten == Wrap32(ring.numWritten + 1)
      && r.entries[slot] == LogData(if next == slot then 0 else ring.layout.IdOf(ring.numWritten), |e.context|,
           e.sysTaskId, e.context + seq(ring.layout.contextCapacity - |e.context|, _ => 0))
      && (next != slot ==> r.entries[next] == ring.entries[next].(contextId := 0))
      && forall j :: 0 <= j < |ring.entries| && j != slot && j != next ==> r.entries[j] == ring.entries[j]
  {
    assert ring.layout.Blank().contextInfo[|e.context|..] ==
           seq(ring.layout.contextCapacity - |e.context|, _ => 0);
  }

  /** `memcpy` from a slot, one byte at a time; `before[i]` are the exceptions whose handlers run
      just before byte `i` is loaded. */
  function CopyBytes(ring: Ring, slot: nat, i: nat, size: nat, before: seq<seq<Exception>>): seq<byte>
    requires ring.Shaped() && slot < |ring.entries| && i <= size <= ring.layout.contextCapacity
    requires |before| == size && forall k :: 0 <= k < size ==> AllFit(ring.layout, before[k])
    decreases size - i
  {
    if i == size then []
    else
      var now := HandlerRuns(ring, before[i]);
      [now.entries[slot].contextInfo[i]] + CopyBytes(now, slot, i + 1, size, before)
  }

  /** The exceptions raised during one CopyContext call: between its check of the ID and its first
      load of the size, before the second load of the size, and before each byte. */
  datatype Interruptions = Interruptions(beforeSize: seq<Exception>, beforeActual: seq<Exception>,
                                         beforeByte: seq<seq<Exception>>) {
    ghost predicate Fit(layout: Layout) {
      && AllFit(layout, beforeSize) && AllFit(layout, beforeActual)
      && forall i :: 0 <= i < |beforeByte| ==> AllFit(layout, beforeByte[i])
    }

    function Total(): nat {
      |beforeSize| + |beforeActual| + TotalOf(beforeByte)
    }
  }

  function TotalOf(before: seq<seq<Exception>>): nat {
    if before == [] then 0 else |before[0]| + TotalOf(before[1..])
  }

  /** The first `n` entries of `before`, padded with "no interruption". */
  function Padded(before: seq<seq<Exception>>, n: nat): seq<seq<Exception>> {
    seq(n, i requires 0 <= i < n => if i < |before| then before[i] else [])
  }

  /** CFE_PSP_Exception_CopyContext with handlers running inside it. */
  function CopyInterrupted(ring: Ring, id: uint32, bufferSize: uint32, during: Interruptions): Option<seq<byte>>
    requires ring.Shaped() && during.Fit(ring.layout)
  {
    var sequence := Sub32(id, ring.layout.idBase);
    if ring.Find(id).None? then None
    else
      var slot := ring.layout.Slot(sequence);
      var ring1 := HandlerRuns(ring, during.beforeSize);
      if bufferSize >= ring1.entries[slot].contextSize then
        var ring2 := HandlerRuns(ring1, during.beforeActual);
        var size := ring2.entries[slot].contextSize;
        Some(CopyBytes(ring2, slot, 0, size, Padded(during.beforeByte, size)))
      else
        Some(CopyBytes(ring1, slot, 0, bufferSize, Padded(during.beforeByte, bufferSize)))
  }

  /** A reachable state between handler runs. */
  ghost predicate Quiet(s: System) {
    Inv(s) && s.writer == Idle
  }

  /** The system after whole handler runs, one after the other. */
  ghost function AfterHandlers(s: System, es: seq<Exception>): (s': System)
    requires WellFormed(s) && AllFit(s.ring.layout, es)
    ensures WellFormed(s')
    decreases |es|
  {
    if es == [] then s
    else
      assert es[0] in es;
      AfterHandlers(AfterHandler(s, es[0]), es[1..])
  }

  lemma HandlerKeepsQuiet(s: System, e: Exception)
    requires Quiet(s) && s.ring.Fits(e)
    ensures
      var s' := AfterHandler(s, e);
      && Quiet(s') && s'.departed == s.departed && s'.ring.layout == s.ring.layout
      && s'.committed == if |Queue(s)| < Size(s) then s.committed + [e] else s.committed
  {
    HandlerRunIsSteps(s, e);
    CountIsLength(s);
  }

  /** How many writes there are after `n` handler runs, of which a full ring turns the last ones away. */
  function WritesAfter(s: System, n: nat): nat {
    Min(|s.committed| + n, |s.departed| + Size(s))
  }

  lemma {:induction false} HandlersKeep(s: System, es: seq<Exception>)
    requires Quiet(s) && AllFit(s.ring.layout, es)
    ensures
      var s' := AfterHandlers(s, es);
      && Quiet(s') && s'.ring.layout == s.ring.layout
      && s'.ring == HandlerRuns(s.ring, es)
      && s.committed <= s'.committed
      && s'.departed == s.departed
      && |s'.committed| == WritesAfter(s, |es|)
    decreases |es|
  {
    if es != [] {
      assert es[0] in es;
      HandlerKeepsQuiet(s, es[0]);
      HandlersKeep(AfterHandler(s, es[0]), es[1..]);
    }
  }

  lemma QuietHolds(s: System, j: nat)
    requires Quiet(s) && |s.committed| - Size(s) <= j < |s.committed|
    ensures Holds(Cell(s, j), s.committed[j])
  {
  }

  /** After `n` handler runs the slot of write `i` has still not been claimed again: the writes have
      not gone past it by more than the ring, or an unread entry in front of it stops them. */
  predicate Safe(s: System, i: nat, n: nat) {
    WritesAfter(s, n) <= i + Size(s)
  }

  /** Handler runs add up. */
  lemma SafeAfter(s: System, es: seq<Exception>, i: nat, n: nat)
    requires Quiet(s) && AllFit(s.ring.layout, es) && Safe(s, i, |es| + n)
    ensures Safe(s, i, |es|) && Safe(AfterHandlers(s, es), i, n)
  {
    HandlersKeep(s, es);
  }

  /** What a load from the slot of write `i` returns after some handlers have run. */
  lemma SlotAfterHandlers(s: System, es: seq<Exception>, i: nat)
    requires Quiet(s) && i < |s.committed| && AllFit(s.ring.layout, es)
    requires Safe(s, i, |es|)
    ensures Holds(Cell(AfterHandlers(s, es), i), s.committed[i])
    ensures AfterHandlers(s, es).ring == HandlerRuns(s.ring, es)
    ensures AfterHandlers(s, es).ring.layout == s.ring.layout
  {
    HandlersKeep(s, es);
    QuietHolds(AfterHandlers(s, es), i);
  }

  /** A byte loaded from the slot of write `i` after some handlers have run. */
  lemma ByteAfterHandlers(s: System, es: seq<Exception>, i: nat, k: nat)
    requires Quiet(s) && i < |s.committed| && AllFit(s.ring.layout, es)
    requires Safe(s, i, |es|) && k < |s.committed[i].context|
    ensures
      var info := Cell(AfterHandlers(s, es), i).contextInfo;
      k < |info| && info[k] == s.committed[i].context[k]
  {
    SlotAfterHandlers(s, es, i);
    var info, context := Cell(AfterHandlers(s, es), i).contextInfo, s.committed[i].context;
    assert info[..|context|][k] == context[k];
  }

  /** While the slot of write `i` is not claimed again, bytes loaded from it are the write's bytes,
      whichever handlers run between the loads. */
  lemma {:induction false} CopyBytesIntact(s: System, i: nat, k: nat, size: nat, before: seq<seq<Exception>>)
    requires Quiet(s) && i < |s.committed| && k <= size <= |s.committed[i].context|
    requires size <= s.ring.layout.contextCapacity
    requires |before| == size && forall b :: 0 <= b < size ==> AllFit(s.ring.layout, before[b])
    requires Safe(s, i, TotalOf(before[k..]))
    ensures CopyBytes(s.ring, i % Size(s), k, size, before) == s.committed[i].context[k..size]
    decreases size - k
  {
    var context := s.committed[i].context;
    if k < size {
      assert before[k..][0] == before[k] && before[k..][1..] == before[k + 1..];
      SafeAfter(s, before[k], i, TotalOf(before[k + 1..]));
      ByteAfterHandlers(s, before[k], i, k);
      HandlersKeep(s, before[k]);
      CopyBytesIntact(AfterHandlers(s, before[k]), i, k + 1, size, before);
      TakeOne(context, k, size);
    }
  }

  lemma TakeOne(bytes: seq<byte>, k: nat, size: nat)
    requires k < size <= |bytes|
    ensures [bytes[k]] + bytes[k + 1..size] == bytes[k..size]
  {
  }

  lemma {:induction false} PaddedTotal(before: seq<seq<Exception>>, n: nat)
    ensures TotalOf(Padded(before, n)) <= TotalOf(before)
    decreases n
  {
    if n > 0 {
      var rest := if before == [] then [] else before[1..];
      PaddedTotal(rest, n - 1);
      assert Padded(before, n)[1..] == Padded(rest, n - 1);
    }
  }

  /** The guarantee of the early expiry. If the ID is accepted, and the handlers that run during the
      copy cannot claim its slot again, the copy returns the bytes committed under that ID. */
  lemma CopyIntact(s: System, i: nat, bufferSize: uint32, during: Interruptions)
    requires Quiet(s) && |s.committed| - Size(s) < i < |s.committed|
    requires during.Fit(s.ring.layout) && Safe(s, i, during.Total())
    ensures CopyInterrupted(s.ring, IdOfWrite(s.ring.layout, i), bufferSize, during) == Intact(s, i, bufferSize)
  {
    TaggedIsFound(s, i);
    IdSelectsSlot(s.ring.layout, i);
    var rest := TotalOf(during.beforeByte);
    SafeAfter(s, during.beforeSize, i, |during.beforeActual| + rest);
    SlotAfterHandlers(s, during.beforeSize, i);
    HandlersKeep(s, during.beforeSize);
    var s1 := AfterHandlers(s, during.beforeSize);
    var full := |s.committed[i].context|;
    if bufferSize >= full {
      SafeAfter(s1, during.beforeActual, i, rest);
      SlotAfterHandlers(s1, during.beforeActual, i);
      HandlersKeep(s1, during.beforeActual);
      BytesIntact(AfterHandlers(s1, during.beforeActual), i, full, during.beforeByte);
    } else {
      BytesIntact(s1, i, bufferSize, during.beforeByte);
    }
  }

  /** What a copy of write `i` is meant to return. */
  function Intact(s: System, i: nat, bufferSize: uint32): Option<seq<byte>>
    requires i < |s.committed|
  {
    Some(Taken(s.committed[i].context, bufferSize))
  }

  /** As much of a context as the caller's buffer takes. */
  function Taken(context: seq<byte>, bufferSize: uint32): seq<byte> {
    context[..Min(|context|, bufferSize)]
  }

  lemma BytesIntact(s: System, i: nat, size: nat, before: seq<seq<Exception>>)
    requires Quiet(s) && i < |s.committed| && size <= |s.committed[i].context|
    requires size <= s.ring.layout.contextCapacity
    requires forall b :: 0 <= b < |before| ==> AllFit(s.ring.layout, before[b])
    requires Safe(s, i, TotalOf(before))
    ensures CopyBytes(s.ring, i % Size(s), 0, size, Padded(before, size)) == s.committed[i].context[..size]
  {
    PaddedTotal(before, size);
    assert Padded(before, size)[0..] == Padded(before, size);
    CopyBytesIntact(s, i, 0, size, Padded(before, size));
  }

  /** A copy interrupted by at most one handler run returns only bytes committed under the requested
      ID, or refuses it. */
  lemma OneInterruptionIsHarmless(s: System, id: uint32, bufferSize: uint32, during: Interruptions)
    requires Quiet(s) && during.Fit(s.ring.layout) && during.Total() <= 1
    ensures
      var copied := CopyInterrupted(s.ring, id, bufferSize, during);
      copied.Some? ==>
        exists i: nat ::
          && i < |s.committed| && id == IdOfWrite(s.ring.layout, i)
          && copied == Intact(s, i, bufferSize)
  {
    if s.ring.Find(id).Some? {
      var i := FoundIsTagged(s, id);
      CopyIntact(s, i, bufferSize, during);
    }
  }

  /** An entry that has not been read yet is copied intact, however many handlers run. */
  lemma UnreadCopyIntact(s: System, i: nat, bufferSize: uint32, during: Interruptions)
    requires Quiet(s) && |s.departed| <= i && |s.committed| - Size(s) < i < |s.committed|
    requires during.Fit(s.ring.layout)
    ensures CopyInterrupted(s.ring, IdOfWrite(s.ring.layout, i), bufferSize, during) == Intact(s, i, bufferSize)
  {
    CopyIntact(s, i, bufferSize, during);
  }

  /** Enough handler runs before the first load, all of which find room, replace the bytes under the
      copy: it returns those of the newest write. */
  lemma NewestReplaces(s: System, i: nat, bufferSize: uint32, es: seq<Exception>)
    requires Quiet(s) && |s.committed| - Size(s) < i < |s.committed|
    requires AllFit(s.ring.layout, es) && es != []
    requires |s.committed| + |es| == i + Size(s) + 1 <= |s.departed| + Size(s)
    ensures
      CopyInterrupted(s.ring, IdOfWrite(s.ring.layout, i), bufferSize, Interruptions(es, [], [])) ==
      Some(Taken(es[|es| - 1].context, bufferSize))
  {
    TaggedIsFound(s, i);
    IdSelectsSlot(s.ring.layout, i);
    var after := AfterHandlers(s, es);
    AllTakenState(s, es, after);
    NewestInOldSlot(after, i);
    CopyAfter(s.ring, IdOfWrite(s.ring.layout, i), bufferSize, es);
    HoldsTaken(Cell(after, i), es[|es| - 1], bufferSize);
  }

  lemma HoldsTaken(d: LogData, e: Exception, bufferSize: uint32)
    requires Holds(d, e)
    ensures d.contextInfo[..Min(d.contextSize, bufferSize)] == Taken(e.context, bufferSize)
  {
    var n := Min(d.contextSize, bufferSize);
    assert d.contextInfo[..|e.context|][..n] == d.contextInfo[..n];
  }

  /** A copy with handlers only before its first load reads what they leave. */
  lemma CopyAfter(ring: Ring, id: uint32, bufferSize: uint32, es: seq<Exception>)
    requires ring.Shaped() && AllFit(ring.layout, es) && ring.Find(id).Some?
    ensures
      var data := HandlerRuns(ring, es).entries[ring.layout.Slot(Sub32(id, ring.layout.idBase))];
      CopyInterrupted(ring, id, bufferSize, Interruptions(es, [], [])) ==
      Some(data.contextInfo[..Min(data.contextSize, bufferSize)])
  {
    var now, slot := HandlerRuns(ring, es), ring.layout.Slot(Sub32(id, ring.layout.idBase));
    var data := now.entries[slot];
    var size := Min(data.contextSize, bufferSize);
    assert HandlerRuns(now, []) == now;
    WholeSlot(now, slot, size);
  }

  lemma {:induction false} TornBytes(ring: Ring, slot: nat, j: nat, k: nat, size: nat, before: seq<seq<Exception>>)
    requires ring.Shaped() && slot < |ring.entries| && j <= k < size <= ring.layout.contextCapacity
    requires |before| == size && (forall b :: 0 <= b < size ==> AllFit(ring.layout, before[b]))
    requires forall b :: j <= b < size && b != k ==> before[b] == []
    ensures CopyBytes(ring, slot, j, size, before) ==
            ring.entries[slot].contextInfo[j..k] + HandlerRuns(ring, before[k]).entries[slot].contextInfo[k..size]
    decreases k - j
  {
    if j < k {
      assert HandlerRuns(ring, before[j]) == ring;
      TornBytes(ring, slot, j + 1, k, size, before);
      TakeOne(ring.entries[slot].contextInfo, j, k);
    } else {
      var now := HandlerRuns(ring, before[k]);
      QuietBytes(now, slot, k + 1, size, before);
      TakeOne(now.entries[slot].contextInfo, k, size);
    }
  }

  /** Handlers that run in the middle of a copy, just before byte `k`, leave it torn: the bytes before
      `k` are as they were, the others as the handlers left them. */
  lemma TornCopy(ring: Ring, id: uint32, bufferSize: uint32, k: nat, es: seq<Exception>)
    requires ring.Shaped() && AllFit(ring.layout, es) && ring.Find(id).Some?
    requires k < Min(ring.Find(id).value.contextSize, bufferSize)
    ensures
      var slot := ring.layout.Slot(Sub32(id, ring.layout.idBase));
      var size := Min(ring.entries[slot].contextSize, bufferSize);
      CopyInterrupted(ring, id, bufferSize, Interruptions([], [], seq(k, _ => []) + [es])) ==
      Some(ring.entries[slot].contextInfo[..k] + HandlerRuns(ring, es).entries[slot].contextInfo[k..size])
  {
    var slot := ring.layout.Slot(Sub32(id, ring.layout.idBase));
    var size := Min(ring.entries[slot].contextSize, bufferSize);
    var before := Padded(seq(k, _ => []) + [es], size);
    assert HandlerRuns(ring, []) == ring;
    TornBytes(ring, slot, 0, k, size, before);
    assert before[k] == es;
  }

  /** The size is loaded twice when the buffer is large enough, and then the second load counts;
      otherwise once. */
  lemma SizeLoads(ring: Ring, id: uint32, bufferSize: uint32, es: seq<Exception>)
    requires ring.Shaped() && AllFit(ring.layout, es) && ring.Find(id).Some?
    ensures
      var slot := ring.layout.Slot(Sub32(id, ring.layout.idBase));
      var was, now := ring.entries[slot], HandlerRuns(ring, es).entries[slot];
      CopyInterrupted(ring, id, bufferSize, Interruptions([], es, [])) ==
      Some(if bufferSize >= was.contextSize then now.contextInfo[..now.contextSize] else was.contextInfo[..bufferSize])
  {
    var slot := ring.layout.Slot(Sub32(id, ring.layout.idBase));
    var was := ring.entries[slot];
    assert HandlerRuns(ring, []) == ring;
    if bufferSize >= was.contextSize {
      WholeSlot(HandlerRuns(ring, es), slot, HandlerRuns(ring, es).entries[slot].contextSize);
    } else {
      WholeSlot(ring, slot, bufferSize);
    }
  }

  lemma WholeSlot(ring: Ring, slot: nat, size: nat)
    requires ring.Shaped() && slot < |ring.entries| && size <= ring.layout.contextCapacity
    ensures CopyBytes(ring, slot, 0, size, Padded([], size)) == ring.entries[slot].contextInfo[..size]
  {
    QuietBytes(ring, slot, 0, size, Padded([], size));
    assert ring.entries[slot].contextInfo[0..size] == ring.entries[slot].contextInfo[..size];
  }

  /** A one-byte context that no copy of `context` can be mistaken for. */
  function Unlike(context: seq<byte>): (e: Exception)
    ensures |e.context| == 1 && e.context != context
  {
    Exception(0, [if context != [] && context[0] == 0 then 1 else 0])
  }

  function Repeated(e: Exception, n: nat): (es: seq<Exception>)
    ensures |es| == n && forall i :: 0 <= i < n ==> es[i] == e
  {
    seq(n, _ => e)
  }

  lemma UnsafeReplaced(s: System, i: nat, n: nat) returns (bufferSize: uint32, during: Interruptions)
    requires Quiet(s) && |s.committed| - Size(s) < i < |s.committed|
    requires s.ring.layout.contextCapacity > 0 && !Safe(s, i, n)
    ensures during.Fit(s.ring.layout) && during.Total() <= n
    ensures CopyInterrupted(s.ring, IdOfWrite(s.ring.layout, i), bufferSize, during) != Intact(s, i, bufferSize)
  {
    QuietHolds(s, i);
    bufferSize := s.ring.layout.contextCapacity;
    var e := Unlike(s.committed[i].context);
    var es := Repeated(e, i + Size(s) + 1 - |s.committed|);
    during := Interruptions(es, [], []);
    NewestReplaces(s, i, bufferSize, es);
    TakenWhole(e.context, bufferSize);
    TakenWhole(s.committed[i].context, bufferSize);
  }

  lemma TakenWhole(context: seq<byte>, bufferSize: uint32)
    requires |context| <= bufferSize
    ensures Taken(context, bufferSize) == context
  {
  }

  /** Exactly when an accepted copy can be relied on: whatever is interrupted by at most `n` handler
      runs, at whichever points and with whichever contexts, returns the bytes committed under the
      ID if and only if `n` runs cannot claim the slot again. */
  lemma CopyIntactIff(s: System, i: nat, n: nat)
    requires Quiet(s) && |s.committed| - Size(s) < i < |s.committed|
    requires s.ring.layout.contextCapacity > 0
    ensures Safe(s, i, n) <==>
      forall bufferSize: uint32, during: Interruptions :: during.Fit(s.ring.layout) && during.Total() <= n ==>
        CopyInterrupted(s.ring, IdOfWrite(s.ring.layout, i), bufferSize, during) == Intact(s, i, bufferSize)
  {
    if Safe(s, i, n) {
      forall bufferSize: uint32, during: Interruptions | during.Fit(s.ring.layout) && during.Total() <= n
        ensures CopyInterrupted(s.ring, IdOfWrite(s.ring.layout, i), bufferSize, during) == Intact(s, i, bufferSize)
      {
        CopyIntact(s, i, bufferSize, during);
      }
    } else {
      var bufferSize, during := UnsafeReplaced(s, i, n);
    }
  }

  lemma {:induction false} RunConcat(s: System, a: seq<Action>, b: seq<Action>)
    requires WellFormed(s)
    ensures Run(s, a + b) == Run(Run(s, a), b)
    decreases |a|
  {
    if a == [] {
      assert a + b == b;
    } else {
      assert (a + b)[1..] == a[1..] + b;
      RunConcat(Step(s, a[0]), a[1..], b);
    }
  }

  /** One exception handled and reported. */
  function OneReported(e: Exception): seq<Action> {
    ([Raise(e)] + seq(7, _ => HandlerStep)) + ([StartSummary] + seq(4, _ => ReaderStep))
  }

  /** The bad case is reached from power-on: once the first entry has been reported, its copy by ID
      withstands fewer than 2^entryBits handler runs, and that many can replace its bytes. */
  lemma ReportedEntryReplaced(layout: Layout, e: Exception, n: nat)
    requires layout.Valid() && layout.entryBits > 0 && layout.contextCapacity > 0
    requires |e.context| <= layout.contextCapacity
    ensures
      var s := Run(Initial(layout), OneReported(e));
      && Quiet(s) && s.ring.layout == layout && s.committed == [e]
      && ((forall bufferSize: uint32, during: Interruptions :: during.Fit(layout) && during.Total() <= n ==>
             CopyInterrupted(s.ring, IdOfWrite(layout, 0), bufferSize, during) == Intact(s, 0, bufferSize))
          <==> n < Size(s))
  {
    AfterOneReported(layout, e);
    CopyIntactIff(Run(Initial(layout), OneReported(e)), 0, n);
  }

  lemma AfterOneReported(layout: Layout, e: Exception)
    requires layout.Valid() && layout.entryBits > 0 && |e.context| <= layout.contextCapacity
    ensures
      var s := Run(Initial(layout), OneReported(e));
      && Quiet(s) && s.ring.layout == layout && Size(s) > 1
      && s.committed == [e] && |s.departed| == 1
  {
    var handler, summary := [Raise(e)] + seq(7, _ => HandlerStep), [StartSummary] + seq(4, _ => ReaderStep);
    AfterOneHandled(layout, e);
    InitialInv(layout);
    RunConcat(Initial(layout), handler, summary);
    SummaryIsSteps(Run(Initial(layout), handler));
    assert layout.Entries() == 2 * Pow2(layout.entryBits - 1);
  }

  lemma AfterOneHandled(layout: Layout, e: Exception)
    requires layout.Valid() && |e.context| <= layout.contextCapacity
    ensures WellFormed(Initial(layout))
    ensures
      var s := Run(Initial(layout), [Raise(e)] + seq(7, _ => HandlerStep));
      && Quiet(s) && s.reader == Resting && s.ring.Count() != 0
      && s.committed == [e] && s.departed == []
  {
    InitialInv(layout);
    HandlerRunIsSteps(Initial(layout), e);
    EmptyTakes(Initial(layout), e);
  }

  lemma EmptyTakes(s: System, e: Exception)
    requires Quiet(s) && s.committed == [] && s.ring.Fits(e)
    ensures
      var s' := AfterHandler(s, e);
      s'.committed == [e] && s'.departed == [] && s'.reader == s.reader && s'.ring.Count() != 0
  {
    HandlerKeepsQuiet(s, e);
    CountIsLength(s);
    CountIsLength(AfterHandler(s, e));
  }

  /** The newest write is also in the slot of the write 2^entryBits before it. */
  lemma NewestInOldSlot(s: System, i: nat)
    requires Quiet(s) && |s.committed| == i + Size(s) + 1
    ensures Holds(Cell(s, i), s.committed[|s.committed| - 1])
  {
    QuietHolds(s, i + Size(s));
    SameSlot(s, i, i + Size(s), s.committed[|s.committed| - 1]);
  }

  /** The state after handlers that all find room. */
  lemma AllTakenState(s: System, es: seq<Exception>, after: System)
    requires Quiet(s) && AllFit(s.ring.layout, es) && es != []
    requires |s.committed| + |es| <= |s.departed| + Size(s)
    requires after == AfterHandlers(s, es)
    ensures Quiet(after) && Size(after) == Size(s) && after.ring == HandlerRuns(s.ring, es)
    ensures |after.committed| == |s.committed| + |es| && after.committed[|after.committed| - 1] == es[|es| - 1]
  {
    AllTaken(s, es);
    HandlersKeep(s, es);
    LastOf(s.committed, es);
  }

  lemma LastOf(a: seq<Exception>, b: seq<Exception>)
    requires b != []
    ensures |a + b| == |a| + |b| && (a + b)[|a + b| - 1] == b[|b| - 1]
  {
  }

  lemma SameSlot(s: System, i: nat, j: nat, e: Exception)
    requires WellFormed(s) && j == i + Size(s) && Holds(Cell(s, j), e)
    ensures Holds(Cell(s, i), e)
  {
    ModAddMultiple(i, Size(s), 1);
  }

  lemma HandlerTaken(s: System, e: Exception)
    requires Quiet(s) && s.ring.Fits(e) && |s.committed| < |s.departed| + Size(s)
    ensures
      var s' := AfterHandler(s, e);
      && Quiet(s') && s'.departed == s.departed && s'.ring.layout == s.ring.layout
      && s'.committed == s.committed + [e]
  {
    HandlerKeepsQuiet(s, e);
  }

  lemma {:induction false} AllTaken(s: System, es: seq<Exception>)
    requires Quiet(s) && AllFit(s.ring.layout, es)
    requires |s.committed| + |es| <= |s.departed| + Size(s)
    ensures AfterHandlers(s, es).committed == s.committed + es
    decreases |es|
  {
    if es == [] {
      assert s.committed + es == s.committed;
    } else {
      assert es[0] in es;
      HandlerTaken(s, es[0]);
      AllTaken(AfterHandler(s, es[0]), es[1..]);
      Regroup(s.committed, es);
    }
  }

  lemma Regroup(a: seq<Exception>, b: seq<Exception>)
    requires b != []
    ensures (a + [b[0]]) + b[1..] == a + b
  {
  }

  lemma {:induction false} QuietBytes(ring: Ring, slot: nat, k: nat, size: nat, before: seq<seq<Exception>>)
    requires ring.Shaped() && slot < |ring.entries| && k <= size <= ring.layout.contextCapacity
    requires |before| == size && (forall b :: 0 <= b < size ==> AllFit(ring.layout, before[b]))
    requires forall b :: k <= b < size ==> before[b] == []
    ensures CopyBytes(ring, slot, k, size, before) == ring.entries[slot].contextInfo[k..size]
    decreases size - k
  {
    if k < size {
      QuietBytes(ring, slot, k + 1, size, before);
    }
  }

  /** With nothing interrupting it, the copy is what `ExceptionStorage.CopyContext` returns. */
  lemma UninterruptedCopy(ring: Ring, id: uint32, bufferSize: uint32)
    requires ring.Shaped()
    ensures CopyInterrupted(ring, id, bufferSize, Interruptions([], [], [])) ==
      match ring.Find(id)
      case None => None
      case Some(data) => Some(data.contextInfo[..Min(data.contextSize, bufferSize)])
  {
    if ring.Find(id).Some? {
      assert HandlerRuns(ring, []) == ring;
      CopyAfter(ring, id, bufferSize, []);
    }
  }
}
