/** How pc-linux decides between a power-on and a processor reset, and what survives in shared
    memory (fsw/pc-linux/src/cfe_psp_start.c, cfe_psp_support.c, cfe_psp_memory.c). */
module ResetPolicy {
  import opened Bits

  const SUCCESS := 0
  const ERROR := -1

  const PROCESSOR: uint32 := 1
  const POWERON: uint32 := 2
  const VALID: uint32 := 0x2aeb_e984
  const INVALID: uint32 := 0xFFFF_FFFF - VALID

  datatype BootRecord = BootRecord(validityFlag: uint32, nextResetType: uint32)

  /** The contents of the three shared memory segments; the reset segment holds the boot record,
      the exception log and the reset area. */
  datatype Memory = Memory(cds: seq<byte>, boot: BootRecord, exceptions: seq<byte>, resetArea: seq<byte>,
                           user: seq<byte>)

  /** Which of the attached segments the next process will find under their keys. */
  datatype Links = Links(cds: bool, reset: bool, user: bool)

  datatype Psp = Psp(mem: Memory, links: Links)

  function Zeros(n: nat): (z: seq<byte>)
    ensures |z| == n
  {
    seq(n, _ => 0)
  }

  /** CFE_PSP_SetupReservedMemoryMap in a new process: an unlinked segment is created again, zeroed. */
  function Attach(p: Psp): Psp {
    var m := p.mem;
    Psp(Memory(if p.links.cds then m.cds else Zeros(|m.cds|),
               if p.links.reset then m.boot else BootRecord(0, 0),
               if p.links.reset then m.exceptions else Zeros(|m.exceptions|),
               if p.links.reset then m.resetArea else Zeros(|m.resetArea|),
               if p.links.user then m.user else Zeros(|m.user|)),
        Links(true, true, true))
  }

  /** The reset type chosen at startup; `option` is the argument of -R. It is PROCESSOR for a recorded
      PROCESSOR under one of the two known flags, or for an argument that starts with "PR". */
  function Decide(boot: BootRecord, option: Option<string>): (resetType: uint32)
    ensures resetType == 1 || resetType == 2
    ensures option.None? ==>
      (resetType == 1 <==>
       boot.nextResetType == 1 && (boot.validityFlag == 0x2aeb_e984 || boot.validityFlag == 0xd514_167b))
    ensures option.Some? ==>
      (resetType == 1 <==> |option.value| >= 2 && option.value[0] == 'P' && option.value[1] == 'R')
  {
    var resetType :=
      match option
      case None => if boot.validityFlag == VALID || boot.validityFlag == INVALID then boot.nextResetType else 0
      case Some(text) => if "PR" <= text then PROCESSOR else 0;
    if resetType == PROCESSOR then resetType else POWERON
  }

  /** CFE_PSP_InitProcessorReservedMemory. */
  function Initialized(m: Memory, resetType: uint32): Memory {
    if resetType == POWERON then
      Memory(Zeros(|m.cds|), BootRecord(INVALID, PROCESSOR), Zeros(|m.exceptions|), Zeros(|m.resetArea|),
             Zeros(|m.user|))
    else m.(boot := BootRecord(INVALID, POWERON))
  }

  /** The first `n` steps of CFE_PSP_Restart: for a power-on restart the three segments are unlinked,
      where `deleted` says which of the system calls succeed; then the type and the flag are
      recorded. Writes to an unlinked segment are not seen by the next process. */
  function RestartSteps(p: Psp, resetType: uint32, deleted: Links, n: nat): Psp {
    var m := if resetType == POWERON then (if n < 3 then 0 else n - 3) else n;
    var unlinked :=
      if resetType == POWERON then
        Links(p.links.cds && !(n >= 1 && deleted.cds),
              p.links.reset && !(n >= 2 && deleted.reset),
              p.links.user && !(n >= 3 && deleted.user))
      else p.links;
    var typed := if m >= 1 then p.mem.boot.(nextResetType := resetType) else p.mem.boot;
    var flagged := if m >= 2 then typed.(validityFlag := VALID) else typed;
    Psp(p.mem.(boot := flagged), unlinked)
  }

  const ALL_STEPS := 5

  // ---------------------------------------------------------------- the critical data store

  /** The range check shared by CFE_PSP_WriteToCDS and CFE_PSP_ReadFromCDS: a 32-bit sum. */
  predicate Accepted(offset: uint32, length: uint32, size: uint32) {
    offset < size && Wrap32(offset + length) <= size
  }

  /** The check is right exactly when the sum does not wrap for an offset inside the store. */
  lemma AcceptedExact(offset: uint32, length: uint32, size: uint32)
    ensures (Accepted(offset, length, size) <==> offset < size && offset + length <= size) <==>
            !(offset < size && offset + length >= TWO32)
  {
  }

  /** As many bytes as a 32-bit length can count. */
  type Bytes = b: seq<byte> | |b| < TWO32

  datatype CdsWrite = CdsWrite(offset: uint32, data: Bytes) {
    /** The range check of a store of `size` bytes is right for this write. */
    predicate Plain(size: nat) {
      offset < size ==> offset + |data| < TWO32
    }

    predicate Covers(o: nat, size: uint32)
      requires Plain(size)
    {
      Accepted(offset, |data|, size) && offset <= o < offset + |data|
    }
  }

  function Written(cds: seq<byte>, w: CdsWrite): (after: seq<byte>)
    requires |cds| < TWO32 && w.Plain(|cds|)
    ensures |after| == |cds|
    ensures forall o :: 0 <= o < |cds| ==> after[o] == if w.Covers(o, |cds|) then w.data[o - w.offset] else cds[o]
  {
    if Accepted(w.offset, |w.data|, |cds|) then cds[..w.offset] + w.data + cds[w.offset + |w.data|..] else cds
  }

  // ---------------------------------------------------------------- the process

  method Clear(block: array<byte>)
    modifies block
    ensures block[..] == Zeros(block.Length)
  {
    for i := 0 to block.Length
      invariant block[..i] == Zeros(i)
    {
      block[i] := 0;
      assert block[..i + 1] == block[..i] + [0];
    }
    assert block[..block.Length] == block[..];
  }

  /** `memcpy` into a block. */
  method Copy(block: array<byte>, offset: nat, data: seq<byte>)
    requires offset + |data| <= block.Length
    modifies block
    ensures block[..] == old(block[..offset]) + data + old(block[offset + |data|..])
  {
    ghost var before := block[..];
    for i := 0 to |data|
      invariant block[..offset] == before[..offset] && block[offset..offset + i] == data[..i]
      invariant block[offset + i..] == before[offset + i..]
    {
      block[offset + i] := data[i];
    }
    assert block[..] == block[..offset] + block[offset..offset + |data|] + block[offset + |data|..];
  }

  method FreshBlock(n: nat) returns (block: array<byte>)
    ensures fresh(block) && block[..] == Zeros(n)
  {
    block := new byte[n](_ => 0);
    assert block[..] == Zeros(n);
  }

  class LinuxPsp {
    var cds: array<byte>
    var validityFlag: uint32
    var nextResetType: uint32
    var exceptions: array<byte>
    var resetArea: array<byte>
    var user: array<byte>
    var links: Links
    var shutdownReq: bool

    ghost predicate Valid()
      reads this
    {
      && cds != exceptions && cds != resetArea && cds != user
      && exceptions != resetArea && exceptions != user && resetArea != user
      && cds.Length < TWO32
    }

    ghost function View(): Psp
      reads this, cds, exceptions, resetArea, user
    {
      Psp(Memory(cds[..], BootRecord(validityFlag, nextResetType), exceptions[..], resetArea[..], user[..]), links)
    }

    /** Before the first boot no segment exists. */
    constructor (cdsSize: uint32, exceptionsSize: nat, resetAreaSize: nat, userSize: nat)
      ensures Valid() && fresh(cds) && fresh(exceptions) && fresh(resetArea) && fresh(user)
      ensures View() == Psp(Memory(Zeros(cdsSize), BootRecord(0, 0), Zeros(exceptionsSize), Zeros(resetAreaSize),
                                   Zeros(userSize)), Links(false, false, false))
    {
      var c := FreshBlock(cdsSize);
      var e := FreshBlock(exceptionsSize);
      var r := FreshBlock(resetAreaSize);
      var u := FreshBlock(userSize);
      cds, exceptions, resetArea, user := c, e, r, u;
      validityFlag, nextResetType := 0, 0;
      links := Links(false, false, false);
      shutdownReq := false;
    }

    method SetupReservedMemoryMap()
      requires Valid()
      modifies this
      ensures Valid() && View() == Attach(old(View()))
      ensures cds == old(cds) || fresh(cds)
      ensures exceptions == old(exceptions) || fresh(exceptions)
      ensures resetArea == old(resetArea) || fresh(resetArea)
      ensures user == old(user) || fresh(user)
    {
      if !links.cds {
        cds := FreshBlock(cds.Length);
      }
      if !links.reset {
        exceptions := FreshBlock(exceptions.Length);
        resetArea := FreshBlock(resetArea.Length);
        validityFlag, nextResetType := 0, 0;
      }
      if !links.user {
        user := FreshBlock(user.Length);
      }
      links := Links(true, true, true);
    }

    /** The part of OS_Application_Startup that picks the reset type. */
    method DetermineResetType(option: Option<string>) returns (resetType: uint32)
      ensures resetType == Decide(View().mem.boot, option)
    {
      resetType := 0;
      if option.None? {
        if validityFlag == VALID || validityFlag == INVALID {
          resetType := nextResetType;
        }
      } else if "PR" <= option.value {
        resetType := PROCESSOR;
      }
      if resetType != PROCESSOR {
        resetType := POWERON;
      }
    }

    method InitProcessorReservedMemory(restartType: uint32) returns (status: int)
      requires Valid()
      modifies this`nextResetType, this`validityFlag, cds, exceptions, resetArea, user
      ensures status == SUCCESS && Valid()
      ensures View() == old(View()).(mem := Initialized(old(View()).mem, restartType))
    {
      if restartType == POWERON {
        Clear(cds);
        Clear(resetArea);
        Clear(user);
        validityFlag, nextResetType := 0, 0;
        Clear(exceptions);
        nextResetType := PROCESSOR;
      } else {
        nextResetType := POWERON;
      }
      validityFlag := INVALID;
      status := SUCCESS;
    }

    /** CFE_PSP_DeleteProcessorReservedMemory, with the outcome of each system call. */
    method DeleteProcessorReservedMemory(deleted: Links)
      requires Valid()
      modifies this`links
      ensures links == Links(old(links).cds && !deleted.cds, old(links).reset && !deleted.reset,
                             old(links).user && !deleted.user)
    {
      if deleted.cds {
        links := links.(cds := false);
      }
      if deleted.reset {
        links := links.(reset := false);
      }
      if deleted.user {
        links := links.(user := false);
      }
    }

    /** CFE_PSP_Restart, up to the request to shut down. */
    method Restart(resetType: uint32, deleted: Links)
      requires Valid()
      modifies this`links, this`nextResetType, this`validityFlag, this`shutdownReq
      ensures Valid() && shutdownReq
      ensures View() == RestartSteps(old(View()), resetType, deleted, ALL_STEPS)
    {
      if resetType == POWERON {
        DeleteProcessorReservedMemory(deleted);
      }
      nextResetType := resetType;
      validityFlag := VALID;
      shutdownReq := true;
    }

    method WriteToCDS(w: CdsWrite) returns (status: int)
      requires Valid() && w.Plain(cds.Length)
      modifies cds
      ensures status == if Accepted(w.offset, |w.data|, cds.Length) then SUCCESS else ERROR
      ensures View() == old(View()).(mem := old(View()).mem.(cds := Written(old(cds[..]), w)))
    {
      if w.offset < cds.Length && Wrap32(w.offset + |w.data|) <= cds.Length {
        Copy(cds, w.offset, w.data);
        return SUCCESS;
      }
      status := ERROR;
    }

    method ReadFromCDS(offset: uint32, length: uint32) returns (status: int, data: seq<byte>)
      requires Valid() && (offset < cds.Length ==> offset + length < TWO32)
      ensures Accepted(offset, length, cds.Length) ==> status == SUCCESS && data == cds[offset..offset + length]
      ensures !Accepted(offset, length, cds.Length) ==> status == ERROR && data == []
    {
      if offset < cds.Length && Wrap32(offset + length) <= cds.Length {
        return SUCCESS, cds[offset..offset + length];
      }
      return ERROR, [];
    }
  }
}
