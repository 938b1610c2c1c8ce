/** The exception log shared by the PSP's exception handlers and the application that drains it
    (fsw/shared/src/cfe_psp_exceptionstorage.c).

    `Ring` is the content of the reserved memory as a value, with one function for each store the
    code makes; `ExceptionStorage` is the memory itself, updated in place. */
module ExceptionRing {
  import opened Bits

  const SUCCESS := 0
  const NO_EXCEPTION_DATA := -30

  /** The compile-time parameters: 2^entryBits slots, OSAL's index mask 2^indexBits - 1, the base
      that is added to every ID, and the size of a slot's context area. */
  datatype Layout = Layout(entryBits: nat, indexBits: nat, idBase: nat, contextCapacity: nat) {
    ghost predicate Valid() {
      && entryBits <= indexBits < 32
      && 0 < idBase
      && idBase % Pow2(indexBits) == 0
      && idBase + Pow2(indexBits) <= TWO32
      && contextCapacity < 0x8000_0000
    }

    function Entries(): (n: nat)
      ensures n > 0
    {
      Pow2(entryBits)
    }

    /** CFE_PSP_Exception_GetBuffer: the slot of a sequence number. */
    function Slot(sequence: uint32): (slot: nat)
      ensures slot == sequence % Entries()
    {
      AndMask(sequence, entryBits);
      And(sequence, Entries() - 1)
    }

    /** The ID the handler stores for a sequence number. */
    function IdOf(sequence: uint32): uint32 {
      Wrap32(idBase + And(sequence, Pow2(indexBits) - 1))
    }

    function Blank(): LogData {
      LogData(0, 0, 0, seq(contextCapacity, _ => 0))
    }
  }

  datatype LogData = LogData(contextId: uint32, contextSize: nat, sysTaskId: nat, contextInfo: seq<byte>)

  /** What one run of a handler captures. */
  datatype Exception = Exception(sysTaskId: nat, context: seq<byte>)

  datatype Ring = Ring(layout: Layout, numWritten: uint32, numRead: uint32, entries: seq<LogData>) {
    ghost predicate Shaped() {
      && layout.Valid()
      && |entries| == layout.Entries()
      && forall i :: 0 <= i < |entries| ==>
           |entries[i].contextInfo| == layout.contextCapacity && entries[i].contextSize <= layout.contextCapacity
    }

    predicate Fits(e: Exception) {
      |e.context| <= layout.contextCapacity
    }

    function Count(): uint32 {
      Sub32(numWritten, numRead)
    }

    function At(sequence: uint32): LogData
      requires |entries| == layout.Entries()
    {
      entries[layout.Slot(sequence)]
    }

    function Put(sequence: uint32, data: LogData): Ring
      requires |entries| == layout.Entries()
    {
      this.(entries := entries[layout.Slot(sequence) := data])
    }

    // ---- the handler's stores, in program order

    function Cleared(): Ring
      requires Shaped()
    {
      Put(numWritten, layout.Blank())
    }

    function Tagged(): Ring
      requires Shaped()
    {
      Put(numWritten, At(numWritten).(contextId := layout.IdOf(numWritten)))
    }

    function WithContext(e: Exception): Ring
      requires Shaped() && Fits(e)
    {
      Put(numWritten, At(numWritten).(contextInfo := e.context + At(numWritten).contextInfo[|e.context|..]))
    }

    function WithSize(e: Exception): Ring
      requires Shaped() && Fits(e)
    {
      Put(numWritten, At(numWritten).(contextSize := |e.context|))
    }

    function WithTask(e: Exception): Ring
      requires Shaped()
    {
      Put(numWritten, At(numWritten).(sysTaskId := e.sysTaskId))
    }

    function Committed(): Ring {
      this.(numWritten := Wrap32(numWritten + 1))
    }

    function Expired(): Ring
      requires Shaped()
    {
      Put(numWritten, At(numWritten).(contextId := 0))
    }

    /** A whole handler run. */
    function HandlerRun(e: Exception): (r: Ring)
      requires Shaped() && Fits(e)
      ensures r.Shaped() && r.layout == layout && r.numRead == numRead
    {
      if Count() >= layout.Entries() then this
      else Cleared().Tagged().WithContext(e).WithSize(e).WithTask(e).Committed().Expired()
    }

    // ---- the application's side

    function Popped(): Ring {
      this.(numRead := Wrap32(numRead + 1))
    }

    /** The entry CopyContext accepts for an ID, if it accepts it. */
    function Find(id: uint32): Option<LogData>
      requires Shaped()
    {
      var sequence := Sub32(id, layout.idBase);
      if sequence > Pow2(layout.indexBits) - 1 then None
      else if At(sequence).contextId != id then None
      else Some(At(sequence))
    }
  }

  function Min(a: nat, b: nat): nat {
    if a <= b then a else b
  }

  class ExceptionStorage {
    const layout: Layout
    var numWritten: uint32
    var numRead: uint32
    const entries: array<LogData>

    ghost function Value(): Ring
      reads this, entries
    {
      Ring(layout, numWritten, numRead, entries[..])
    }

    ghost predicate Valid()
      reads this, entries
    {
      Value().Shaped()
    }

    /** The storage after the power-on initialization has zeroed it. */
    constructor (layout: Layout)
      requires layout.Valid()
      ensures Valid() && fresh(entries)
      ensures Value() == Ring(layout, 0, 0, seq(layout.Entries(), _ => layout.Blank()))
    {
      this.layout := layout;
      numWritten, numRead := 0, 0;
      entries := new LogData[layout.Entries()](_ => layout.Blank());
      new;
      assert entries[..] == seq(layout.Entries(), _ => layout.Blank());
    }

    method Reset()
      requires Valid()
      modifies this`numRead
      ensures Value() == old(Value()).(numRead := old(numWritten))
    {
      numRead := numWritten;
    }

    /** Claims, clears and tags the next slot; `None` stands for the NULL pointer. */
    method GetNextContextBuffer() returns (buffer: Option<nat>)
      requires Valid()
      modifies entries
      ensures Valid()
      ensures buffer.None? <==> old(Value()).Count() >= layout.Entries()
      ensures buffer.None? ==> Value() == old(Value())
      ensures buffer.Some? ==> buffer.value == layout.Slot(numWritten) && Value() == old(Value()).Cleared().Tagged()
    {
      var nextWrite := numWritten;
      if Sub32(nextWrite, numRead) >= layout.Entries() {
        return None;
      }
      var slot := layout.Slot(nextWrite);
      entries[slot] := layout.Blank();
      assert Value() == old(Value()).Cleared();
      entries[slot] := entries[slot].(contextId := layout.IdOf(nextWrite));
      assert Value() == old(Value()).Cleared().Tagged();
      return Some(slot);
    }

    method WriteComplete()
      requires Valid()
      modifies this`numWritten, entries
      ensures Valid()
      ensures Value() == old(Value()).Committed().Expired()
    {
      numWritten := Wrap32(numWritten + 1);
      var slot := layout.Slot(numWritten);
      entries[slot] := entries[slot].(contextId := 0);
    }

    /** CFE_PSP_ExceptionSigHandler, up to the wake-up signal to the idle task. */
    method SigHandler(e: Exception)
      requires Valid() && Value().Fits(e)
      modifies this`numWritten, entries
      ensures Valid()
      ensures Value() == old(Value()).HandlerRun(e)
    {
      var buffer := GetNextContextBuffer();
      if buffer.Some? {
        var slot := buffer.value;
        ghost var r := Value();
        entries[slot] := entries[slot].(contextInfo := e.context + entries[slot].contextInfo[|e.context|..]);
        assert Value() == r.WithContext(e);
        entries[slot] := entries[slot].(contextSize := |e.context|);
        assert Value() == r.WithContext(e).WithSize(e);
        entries[slot] := entries[slot].(sysTaskId := e.sysTaskId);
        assert Value() == r.WithContext(e).WithSize(e).WithTask(e);
        WriteComplete();
      }
    }

    method GetCount() returns (count: uint32)
      ensures count == Value().Count()
    {
      count := Sub32(numWritten, numRead);
    }

    /** Pops the oldest entry. `findTask` stands for OSAL's reverse lookup of a system thread and
        `describe` for the platform's translation of an entry into a reason string. */
    method GetSummary(findTask: nat -> Option<nat>, describe: LogData -> Option<string>)
      returns (status: int, contextLogId: uint32, taskId: nat, reason: string)
      requires Valid()
      modifies this`numRead
      ensures Valid()
      ensures old(Value()).Count() == 0 ==> status == NO_EXCEPTION_DATA && Value() == old(Value())
      ensures old(Value()).Count() != 0 ==>
        && status == SUCCESS
        && Value() == old(Value()).Popped()
        && var oldest := old(Value()).At(old(numRead));
        && contextLogId == oldest.contextId
        && (match findTask(oldest.sysTaskId) case Some(t) => taskId == t case None => taskId == 0)
        && (match describe(oldest) case Some(d) => reason == d case None => reason == "")
    {
      contextLogId, taskId, reason := 0, 0, "";
      var numStored := GetCount();
      if numStored == 0 {
        return NO_EXCEPTION_DATA, 0, 0, "";
      }
      var slot := layout.Slot(numRead);
      contextLogId := entries[slot].contextId;
      var found := findTask(entries[slot].sysTaskId);
      if found.Some? {
        taskId := found.value;
      } else {
        taskId := 0;
      }
      var described := describe(entries[slot]);
      if described.Some? {
        reason := described.value;
      } else {
        reason := "";
      }
      numRead := Wrap32(numRead + 1);
      status := SUCCESS;
    }

    /** The status is the number of bytes copied, or the negative error code. */
    method CopyContext(contextLogId: uint32, bufferSize: uint32) returns (status: int, copied: seq<byte>)
      requires Valid()
      ensures Value().Find(contextLogId).None? ==> status == NO_EXCEPTION_DATA && copied == []
      ensures Value().Find(contextLogId).Some? ==>
        var data := Value().Find(contextLogId).value;
        && status == |copied|
        && copied == data.contextInfo[..Min(data.contextSize, bufferSize)]
    {
      var sequence := Sub32(contextLogId, layout.idBase);
      if sequence > Pow2(layout.indexBits) - 1 {
        return NO_EXCEPTION_DATA, [];
      }
      var data := entries[layout.Slot(sequence)];
      if data.contextId != contextLogId {
        return NO_EXCEPTION_DATA, [];
      }
      var actualSize;
      if bufferSize >= data.contextSize {
        actualSize := data.contextSize;
      } else {
        actualSize := bufferSize;
      }
      copied := data.contextInfo[..actualSize];
      status := actualSize;
    }
  }
}
