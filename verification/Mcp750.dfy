/** The reset decision on the MCP750, from its reset register and a word in preserved RAM
    (fsw/mcp750-vxworks/src/cfe_psp_start.c, cfe_psp_support.c, cfe_psp_memory.c), and where it
    agrees with pc-linux. */
module Mcp750 {
  import opened Bits
  import opened ResetPolicy
  import opened ResetRuns

  const POWER_CYCLE: uint32 := 1
  const PUSH_BUTTON: uint32 := 2
  const HW_WATCHDOG: uint32 := 4
  const RESET_COMMAND: uint32 := 5
  const UNDEFINED_RESET: uint32 := 7

  /** The bits of the board's reset register that startup looks at. */
  datatype Register = Register(powerOn: bool, pushButton: bool, frontButton: bool, watchdog2: bool,
                               softReset: bool, hardReset: bool)

  /** The reserved block: the reset type in the boot record, and every other byte. */
  datatype Reserved = Reserved(bspResetType: uint32, rest: seq<byte>)

  /** The cascade over the register: reset type and subtype. */
  function Cascade(register: Register, bspResetType: uint32): (uint32, uint32) {
    if register.powerOn then (POWERON, POWER_CYCLE)
    else if register.pushButton then (POWERON, PUSH_BUTTON)
    else if register.frontButton then (PUSH_BUTTON, 3)
    else if register.watchdog2 then (PROCESSOR, HW_WATCHDOG)
    else if register.softReset then (PROCESSOR, RESET_COMMAND)
    else if register.hardReset then
      if bspResetType == POWERON then (POWERON, RESET_COMMAND) else (PROCESSOR, RESET_COMMAND)
    else (POWERON, UNDEFINED_RESET)
  }

  /** What a boot of a given type does to the reserved block. */
  function AfterBoot(r: Reserved, resetType: uint32): Reserved {
    if resetType == PROCESSOR then r.(bspResetType := POWERON)
    else Reserved(PROCESSOR, Zeros(|r.rest|))
  }

  function AfterRestart(r: Reserved, resetType: uint32): Reserved {
    r.(bspResetType := if resetType == POWERON then POWERON else PROCESSOR)
  }

  /** Power was switched on or a button pressed. */
  predicate Pressed(register: Register) {
    register.powerOn || register.pushButton || register.frontButton
  }

  class McpPsp {
    var bspResetType: uint32
    const rest: array<byte>

    ghost function View(): Reserved
      reads this, rest
    {
      Reserved(bspResetType, rest[..])
    }

    constructor (bspResetType: uint32, size: nat)
      ensures bspResetType == this.bspResetType && fresh(rest) && rest[..] == Zeros(size)
    {
      this.bspResetType := bspResetType;
      rest := new byte[size](_ => 0);
      new;
      assert rest[..] == Zeros(size);
    }

    method InitProcessorReservedMemory(restartType: uint32) returns (status: int)
      modifies this`bspResetType, rest
      ensures status == SUCCESS
      ensures View() == if restartType != PROCESSOR then Reserved(PROCESSOR, Zeros(rest.Length)) else old(View())
    {
      if restartType != PROCESSOR {
        bspResetType := 0;
        Clear(rest);
        bspResetType := PROCESSOR;
      }
      status := SUCCESS;
    }

    /** OS_Application_Startup from reading the register to the cFE entry point. The first bit that is
        set decides; a hard reset by software asks the boot record. */
    method Startup(register: Register) returns (resetType: uint32, resetSubtype: uint32)
      modifies this`bspResetType, rest
      ensures register.powerOn ==> resetType == 2 && resetSubtype == 1
      ensures !register.powerOn && register.pushButton ==> resetType == 2 && resetSubtype == 2
      ensures !register.powerOn && !register.pushButton && register.frontButton ==>
                resetType == 2 && resetSubtype == 3
      ensures !Pressed(register) && register.watchdog2 ==> resetType == 1 && resetSubtype == 4
      ensures !Pressed(register) && !register.watchdog2 && register.softReset ==> resetType == 1 && resetSubtype == 5
      ensures !Pressed(register) && !register.watchdog2 && !register.softReset && register.hardReset ==>
                resetType == (if old(bspResetType) == 2 then 2 else 1) && resetSubtype == 5
      ensures !Pressed(register) && !register.watchdog2 && !register.softReset && !register.hardReset ==>
                resetType == 2 && resetSubtype == 7
      ensures rest[..] == if resetType == 1 then old(rest[..]) else Zeros(rest.Length)
      ensures bspResetType == if resetType == 1 then 2 else 1
      ensures (resetType, resetSubtype) == Cascade(register, old(bspResetType))
      ensures View() == AfterBoot(old(View()), resetType)
    {
      if register.powerOn {
        resetType, resetSubtype := POWERON, POWER_CYCLE;
      } else if register.pushButton {
        resetType, resetSubtype := POWERON, PUSH_BUTTON;
      } else if register.frontButton {
        resetType, resetSubtype := PUSH_BUTTON, 3;
      } else if register.watchdog2 {
        resetType, resetSubtype := PROCESSOR, HW_WATCHDOG;
      } else if register.softReset {
        resetType, resetSubtype := PROCESSOR, RESET_COMMAND;
      } else if register.hardReset {
        if bspResetType == POWERON {
          resetType, resetSubtype := POWERON, RESET_COMMAND;
        } else {
          resetType, resetSubtype := PROCESSOR, RESET_COMMAND;
        }
      } else {
        resetType, resetSubtype := POWERON, UNDEFINED_RESET;
      }
      if resetType == PROCESSOR {
        bspResetType := POWERON;
      }
      var status := InitProcessorReservedMemory(resetType);
    }

    method Restart(resetType: uint32)
      modifies this`bspResetType
      ensures View() == AfterRestart(old(View()), resetType)
      ensures bspResetType == if resetType == 2 then 2 else 1
    {
      if resetType == POWERON {
        bspResetType := POWERON;
      } else {
        bspResetType := PROCESSOR;
      }
    }
  }

  // ---------------------------------------------------------------- runs

  /** The register after the power switch, and after a software hard reset. */
  const SWITCHED_ON := Register(true, false, false, false, false, false)
  const HARD_RESET := Register(false, false, false, false, false, true)

  /** The endings both platforms have: a crash, or a restart that completes. */
  predicate Comparable(end: Ending) {
    end.Crash? || end.Directed?
  }

  function RegisterAt(boot: nat): Register {
    if boot == 0 then SWITCHED_ON else HARD_RESET
  }

  /** The reserved block after sessions of which the first follows the power switch and every other
      one a software hard reset. */
  ghost function AfterOn(r: Reserved, sessions: seq<Session>): Reserved
    decreases |sessions|
  {
    if sessions == [] then r
    else
      var n := |sessions| - 1;
      var before := AfterOn(r, sessions[..n]);
      var booted := AfterBoot(before, Cascade(RegisterAt(n), before.bspResetType).0);
      match sessions[n].end
      case Directed(t, _) => AfterRestart(booted, t)
      case _ => booted
  }

  ghost function LastBootOn(r: Reserved, sessions: seq<Session>): uint32
    requires sessions != []
  {
    var n := |sessions| - 1;
    Cascade(RegisterAt(n), AfterOn(r, sessions[..n]).bspResetType).0
  }

  /** The MCP750's policy for software hard resets. */
  function NextBootOn(last: uint32, end: Ending): uint32 {
    match end
    case Directed(t, _) => if t == POWERON then POWERON else PROCESSOR
    case _ => Opposite(last)
  }

  lemma BootsFollowPolicyOn(r: Reserved, sessions: seq<Session>, next: Session)
    requires sessions != []
    ensures LastBootOn(r, sessions + [next]) == NextBootOn(LastBootOn(r, sessions), sessions[|sessions| - 1].end)
  {
    assert (sessions + [next])[..|sessions|] == sessions;
  }

  /** The two policies differ for a directed restart of a type that is neither of the two, and
      nowhere else. */
  lemma PoliciesAgreeIff(last: uint32, end: Ending)
    requires Comparable(end)
    ensures NextBootOn(last, end) == NextBoot(last, end) <==>
      (end.Directed? ==> end.resetType == PROCESSOR || end.resetType == POWERON)
  {
  }

  /** A crash, or a completed restart with one of the two defined types. */
  predicate Ordinary(end: Ending) {
    end.Crash? || (end.Directed? && (end.resetType == PROCESSOR || end.resetType == POWERON))
  }

  /** Over every run in which restarts ask for one of the two types, both platforms give every boot
      the same type; how the last session ends does not matter. */
  lemma {:induction false} SameBoots(p: Psp, r: Reserved, sessions: seq<Session>)
    requires Unborn(p) && sessions != [] && Orderly(p, sessions)
    requires forall i :: 0 <= i < |sessions| ==> sessions[i].option.None?
    requires forall i :: 0 <= i < |sessions| - 1 ==> Ordinary(sessions[i].end)
    ensures LastBoot(p, sessions) == LastBootOn(r, sessions)
    decreases |sessions|
  {
    var front, last := sessions[..|sessions| - 1], sessions[|sessions| - 1];
    assert sessions == front + [last];
    if front == [] {
      assert sessions == [last];
      FirstBootIsPowerOn(p, last);
    } else {
      SameBoots(p, r, front);
      BootsFollowPolicy(p, front, last);
      BootsFollowPolicyOn(r, front, last);
      PoliciesAgreeIff(LastBoot(p, front), front[|front| - 1].end);
    }
  }

  /** Two boots in a row that are alike on both platforms had an ordinary ending between them. */
  lemma AlikeMeansOrdinary(p: Psp, r: Reserved, front: seq<Session>, last: Session)
    requires front != [] && Orderly(p, front + [last]) && Orderly(p, front) && last.option.None?
    requires Comparable(front[|front| - 1].end)
    requires LastBoot(p, front) == LastBootOn(r, front)
    requires LastBoot(p, front + [last]) == LastBootOn(r, front + [last])
    ensures Ordinary(front[|front| - 1].end)
  {
    BootsFollowPolicy(p, front, last);
    BootsFollowPolicyOn(r, front, last);
    PoliciesAgreeIff(LastBoot(p, front), front[|front| - 1].end);
  }

  /** All boots of a run are alike on both platforms. */
  ghost predicate Alike(p: Psp, r: Reserved, sessions: seq<Session>)
    requires Orderly(p, sessions)
    decreases |sessions|
  {
    sessions != [] ==>
      Alike(p, r, sessions[..|sessions| - 1]) && LastBoot(p, sessions) == LastBootOn(r, sessions)
  }

  ghost predicate AllComparable(sessions: seq<Session>) {
    forall i :: 0 <= i < |sessions| ==> sessions[i].option.None? && Comparable(sessions[i].end)
  }

  /** Every ending but the last is ordinary. */
  ghost predicate OrdinaryBefore(sessions: seq<Session>) {
    forall i :: 0 <= i < |sessions| - 1 ==> Ordinary(sessions[i].end)
  }

  lemma {:induction false} OrdinaryMeansAlike(p: Psp, r: Reserved, sessions: seq<Session>)
    requires Unborn(p) && Orderly(p, sessions) && AllComparable(sessions) && OrdinaryBefore(sessions)
    ensures Alike(p, r, sessions)
    decreases |sessions|
  {
    if sessions != [] {
      OrdinaryMeansAlike(p, r, sessions[..|sessions| - 1]);
      SameBoots(p, r, sessions);
    }
  }

  lemma {:induction false} AlikeMeansAllOrdinary(p: Psp, r: Reserved, sessions: seq<Session>)
    requires Orderly(p, sessions) && AllComparable(sessions) && Alike(p, r, sessions)
    ensures OrdinaryBefore(sessions)
    decreases |sessions|
  {
    if |sessions| > 1 {
      var front, last := sessions[..|sessions| - 1], sessions[|sessions| - 1];
      assert sessions == front + [last];
      AlikeMeansAllOrdinary(p, r, front);
      AlikeMeansOrdinary(p, r, front, last);
    }
  }

  /** Exactly the runs whose restarts, before the last session, ask for one of the two defined types
      have the same boots on both platforms. */
  lemma SameBootsIff(p: Psp, r: Reserved, sessions: seq<Session>)
    requires Unborn(p) && Orderly(p, sessions) && AllComparable(sessions)
    ensures Alike(p, r, sessions) <==> OrdinaryBefore(sessions)
  {
    if OrdinaryBefore(sessions) {
      OrdinaryMeansAlike(p, r, sessions);
    } else if Alike(p, r, sessions) {
      AlikeMeansAllOrdinary(p, r, sessions);
    }
  }
}
