/** Whole runs of boots, uses and endings on pc-linux: which reset type each boot gets, and what the
    critical data store holds. */
module ResetRuns {
  import opened Bits
  import opened ResetPolicy

  /** How a process ends: it crashes, it completes CFE_PSP_Restart, or it dies inside it after some
      of its steps. */
  datatype Ending =
    | Crash
    | Directed(resetType: uint32, deleted: Links)
    | CutShort(resetType: uint32, deleted: Links, steps: nat)

  /** What a process leaves in the other preserved blocks. */
  datatype Blocks = Blocks(exceptions: seq<byte>, resetArea: seq<byte>, user: seq<byte>) {
    predicate Fit(m: Memory) {
      |exceptions| == |m.exceptions| && |resetArea| == |m.resetArea| && |user| == |m.user|
    }
  }

  /** One process: its -R option, what it writes to the critical data store and leaves in the other
      blocks, and its end. */
  datatype Session = Session(option: Option<string>, writes: seq<CdsWrite>, left: Blocks, end: Ending)

  /** The range check is right for every write to a store of `size` bytes. */
  ghost predicate PlainWrites(writes: seq<CdsWrite>, size: nat) {
    forall i :: 0 <= i < |writes| ==> writes[i].Plain(size)
  }

  ghost predicate Orderly(p: Psp, sessions: seq<Session>) {
    && |p.mem.cds| < TWO32
    && forall i :: 0 <= i < |sessions| ==>
         && PlainWrites(sessions[i].writes, |p.mem.cds|)
         && sessions[i].left.Fit(p.mem)
         && (sessions[i].end.CutShort? ==> sessions[i].end.steps < ALL_STEPS)
  }

  // ---------------------------------------------------------------- one session

  /** Attach, decide, initialize. */
  function Booted(p: Psp, option: Option<string>): (b: Psp)
    ensures |b.mem.cds| == |p.mem.cds|
  {
    var a := Attach(p);
    a.(mem := Initialized(a.mem, BootType(p, option)))
  }

  function BootType(p: Psp, option: Option<string>): uint32 {
    Decide(Attach(p).mem.boot, option)
  }

  function AllWritten(cds: seq<byte>, writes: seq<CdsWrite>): (after: seq<byte>)
    requires |cds| < TWO32 && PlainWrites(writes, |cds|)
    ensures |after| == |cds|
  {
    if writes == [] then cds else Written(AllWritten(cds, writes[..|writes| - 1]), writes[|writes| - 1])
  }

  function Used(p: Psp, s: Session): Psp
    requires |p.mem.cds| < TWO32 && PlainWrites(s.writes, |p.mem.cds|)
  {
    p.(mem := Memory(AllWritten(p.mem.cds, s.writes), p.mem.boot, s.left.exceptions, s.left.resetArea, s.left.user))
  }

  function Ended(p: Psp, end: Ending): Psp {
    match end
    case Crash => p
    case Directed(t, deleted) => RestartSteps(p, t, deleted, ALL_STEPS)
    case CutShort(t, deleted, steps) => RestartSteps(p, t, deleted, steps)
  }

  function AfterSession(p: Psp, s: Session): (after: Psp)
    requires |p.mem.cds| < TWO32 && PlainWrites(s.writes, |p.mem.cds|)
    ensures |after.mem.cds| == |p.mem.cds|
  {
    Ended(Used(Booted(p, s.option), s), s.end)
  }

  ghost function After(p: Psp, sessions: seq<Session>): (after: Psp)
    requires Orderly(p, sessions)
    ensures |after.mem.cds| == |p.mem.cds|
    decreases |sessions|
  {
    if sessions == [] then p
    else AfterSession(After(p, sessions[..|sessions| - 1]), sessions[|sessions| - 1])
  }

  /** The reset type of the last session's boot. */
  ghost function LastBoot(p: Psp, sessions: seq<Session>): uint32
    requires Orderly(p, sessions) && sessions != []
  {
    BootType(After(p, sessions[..|sessions| - 1]), sessions[|sessions| - 1].option)
  }

  // ---------------------------------------------------------------- the policy

  function Opposite(resetType: uint32): uint32 {
    if resetType == POWERON then PROCESSOR else POWERON
  }

  /** The policy: what the next boot is, from this boot's type and how the process ended. */
  function NextBoot(last: uint32, end: Ending): uint32 {
    match end
    case Crash => Opposite(last)
    case Directed(t, _) => if t == PROCESSOR then PROCESSOR else POWERON
    case CutShort(t, deleted, steps) =>
      if t == POWERON then
        if (steps >= 2 && deleted.reset) || steps >= 4 then POWERON else Opposite(last)
      else if steps >= 1 then (if t == PROCESSOR then PROCESSOR else POWERON)
      else Opposite(last)
  }

  lemma BootedRecord(p: Psp, option: Option<string>)
    ensures Booted(p, option).links == Links(true, true, true)
    ensures Booted(p, option).mem.boot == BootRecord(INVALID, Opposite(BootType(p, option)))
    ensures BootType(p, option) == PROCESSOR || BootType(p, option) == POWERON
  {
  }

  lemma EndingDecides(p: Psp, last: uint32, end: Ending)
    requires p.links == Links(true, true, true) && p.mem.boot == BootRecord(INVALID, Opposite(last))
    requires last == PROCESSOR || last == POWERON
    requires end.CutShort? ==> end.steps < ALL_STEPS
    ensures BootType(Ended(p, end), None) == NextBoot(last, end)
  {
  }

  /** With no -R option every boot follows the policy, whatever happened in the sessions before. */
  lemma BootsFollowPolicy(p: Psp, sessions: seq<Session>, next: Session)
    requires sessions != [] && Orderly(p, sessions + [next]) && next.option.None?
    ensures Orderly(p, sessions)
    ensures LastBoot(p, sessions + [next]) == NextBoot(LastBoot(p, sessions), sessions[|sessions| - 1].end)
  {
    assert forall i :: 0 <= i < |sessions| ==> (sessions + [next])[i] == sessions[i];
    assert (sessions + [next])[..|sessions|] == sessions;
    var last := sessions[|sessions| - 1];
    var before := After(p, sessions[..|sessions| - 1]);
    BootedRecord(before, last.option);
    EndingDecides(Used(Booted(before, last.option), last), LastBoot(p, sessions), last.end);
  }

  /** Before the first boot there are no segments. */
  predicate Unborn(p: Psp) {
    p.links == Links(false, false, false) && p.mem.cds == Zeros(|p.mem.cds|) && |p.mem.cds| < TWO32
  }

  lemma FirstBootIsPowerOn(p: Psp, s: Session)
    requires Unborn(p) && Orderly(p, [s]) && s.option.None?
    ensures LastBoot(p, [s]) == POWERON
  {
    assert [s][..0] == [];
  }

  /** Two processor boots in a row: the process between them asked for the second one. */
  lemma RepeatedProcessorIsDirected(p: Psp, sessions: seq<Session>, next: Session)
    requires sessions != [] && Orderly(p, sessions + [next]) && next.option.None?
    requires Orderly(p, sessions) && LastBoot(p, sessions) == PROCESSOR
    requires LastBoot(p, sessions + [next]) == PROCESSOR
    ensures
      var end := sessions[|sessions| - 1].end;
      !end.Crash? && end.resetType == PROCESSOR
  {
    BootsFollowPolicy(p, sessions, next);
  }

  // ---------------------------------------------------------------- the store over a run

  /** The process's end leaves no critical data store to find. */
  predicate DeletesCds(end: Ending) {
    match end
    case Crash => false
    case Directed(t, deleted) => t == POWERON && deleted.cds
    case CutShort(t, deleted, steps) => t == POWERON && deleted.cds && steps >= 1
  }

  /** The same for the segment of the boot record, the exception log and the reset area... */
  predicate DeletesReset(end: Ending) {
    match end
    case Crash => false
    case Directed(t, deleted) => t == POWERON && deleted.reset
    case CutShort(t, deleted, steps) => t == POWERON && deleted.reset && steps >= 2
  }

  /** ...and for the user reserved area. */
  predicate DeletesUser(end: Ending) {
    match end
    case Crash => false
    case Directed(t, deleted) => t == POWERON && deleted.user
    case CutShort(t, deleted, steps) => t == POWERON && deleted.user && steps >= 3
  }

  /** The last session's boot leaves the store empty: a power-on boot, or a segment that was deleted. */
  ghost predicate StartsEmpty(p: Psp, sessions: seq<Session>)
    requires Orderly(p, sessions) && sessions != []
  {
    LastBoot(p, sessions) == POWERON || (|sessions| > 1 && DeletesCds(sessions[|sessions| - 2].end))
  }

  /** The writes since the store was last empty. */
  ghost function History(p: Psp, sessions: seq<Session>): (history: seq<CdsWrite>)
    requires Orderly(p, sessions)
    ensures PlainWrites(history, |p.mem.cds|)
    decreases |sessions|
  {
    if sessions == [] then []
    else
      var front, last := sessions[..|sessions| - 1], sessions[|sessions| - 1];
      (if StartsEmpty(p, sessions) then [] else History(p, front)) + last.writes
  }

  /** The value the most recent accepted write gave to byte `o`, or 0. */
  function LastByte(history: seq<CdsWrite>, o: nat, size: uint32): byte
    requires PlainWrites(history, size)
  {
    if history == [] then 0
    else
      var w := history[|history| - 1];
      if w.Covers(o, size) then w.data[o - w.offset] else LastByte(history[..|history| - 1], o, size)
  }

  lemma {:induction false} AllWrittenBytes(cds: seq<byte>, writes: seq<CdsWrite>, before: seq<CdsWrite>, o: nat)
    requires |cds| < TWO32 && PlainWrites(writes, |cds|) && PlainWrites(before, |cds|) && o < |cds|
    requires cds[o] == LastByte(before, o, |cds|)
    ensures PlainWrites(before + writes, |cds|)
    ensures AllWritten(cds, writes)[o] == LastByte(before + writes, o, |cds|)
    decreases |writes|
  {
    if writes == [] {
      assert before + writes == before;
    } else {
      var front, last := writes[..|writes| - 1], writes[|writes| - 1];
      AllWrittenBytes(cds, front, before, o);
      assert before + writes == (before + front) + [last];
      LastByteAppend(before + front, last, o, |cds|);
    }
  }

  lemma LastByteAppend(history: seq<CdsWrite>, w: CdsWrite, o: nat, size: uint32)
    requires PlainWrites(history, size) && w.Plain(size)
    ensures PlainWrites(history + [w], size)
    ensures LastByte(history + [w], o, size) ==
            if w.Covers(o, size) then w.data[o - w.offset] else LastByte(history, o, size)
  {
    assert (history + [w])[..|history|] == history;
  }

  /** What a boot finds in the store. */
  lemma BootedCds(p: Psp, option: Option<string>)
    ensures Booted(p, option).mem.cds ==
      if BootType(p, option) == POWERON || !p.links.cds then Zeros(|p.mem.cds|) else p.mem.cds
  {
  }

  lemma EndedLinks(p: Psp, end: Ending)
    requires p.links == Links(true, true, true)
    ensures Ended(p, end).links == Links(!DeletesCds(end), !DeletesReset(end), !DeletesUser(end))
    ensures Ended(p, end).mem == p.mem.(boot := Ended(p, end).mem.boot)
  {
  }

  /** Over every run, each byte of the store is the last byte written there since the store was last
      empty, or 0. */
  lemma {:induction false} StoreIsHistory(p: Psp, sessions: seq<Session>, o: nat)
    requires Unborn(p) && Orderly(p, sessions) && o < |p.mem.cds|
    ensures After(p, sessions).mem.cds[o] == LastByte(History(p, sessions), o, |p.mem.cds|)
    decreases |sessions|
  {
    if sessions != [] {
      var front, last := sessions[..|sessions| - 1], sessions[|sessions| - 1];
      StoreIsHistory(p, front, o);
      LinksOverRun(p, front);
      var before := After(p, front);
      var booted := Booted(before, last.option);
      BootedCds(before, last.option);
      var kept := if StartsEmpty(p, sessions) then [] else History(p, front);
      assert booted.mem.cds[o] == LastByte(kept, o, |p.mem.cds|);
      AllWrittenBytes(booted.mem.cds, last.writes, kept, o);
      BootedRecord(before, last.option);
      EndedLinks(Used(booted, last), last.end);
    }
  }

  /** Each segment is there for the next process unless the last one deleted it. */
  lemma LinksOverRun(p: Psp, sessions: seq<Session>)
    requires Unborn(p) && Orderly(p, sessions)
    ensures After(p, sessions).links ==
      if sessions == [] then Links(false, false, false)
      else
        var end := sessions[|sessions| - 1].end;
        Links(!DeletesCds(end), !DeletesReset(end), !DeletesUser(end))
  {
    if sessions != [] {
      var before, last := After(p, sessions[..|sessions| - 1]), sessions[|sessions| - 1];
      BootedRecord(before, last.option);
      EndedLinks(Used(Booted(before, last.option), last), last.end);
    }
  }

  // ---------------------------------------------------------------- the other blocks over a run

  /** What a boot of a process finds in the other blocks. */
  function Found(p: Psp, option: Option<string>): Blocks {
    var m := Booted(p, option).mem;
    Blocks(m.exceptions, m.resetArea, m.user)
  }

  lemma BootedBlocks(p: Psp, option: Option<string>)
    ensures
      var kept := BootType(p, option) == PROCESSOR;
      Found(p, option) ==
      Blocks(if kept && p.links.reset then p.mem.exceptions else Zeros(|p.mem.exceptions|),
             if kept && p.links.reset then p.mem.resetArea else Zeros(|p.mem.resetArea|),
             if kept && p.links.user then p.mem.user else Zeros(|p.mem.user|))
  {
  }

  lemma LeftOverRun(p: Psp, sessions: seq<Session>)
    requires Unborn(p) && Orderly(p, sessions) && sessions != []
    ensures
      var m, left := After(p, sessions).mem, sessions[|sessions| - 1].left;
      left.Fit(p.mem) && m.exceptions == left.exceptions && m.resetArea == left.resetArea && m.user == left.user
  {
    var before, last := After(p, sessions[..|sessions| - 1]), sessions[|sessions| - 1];
    BootedRecord(before, last.option);
    EndedLinks(Used(Booted(before, last.option), last), last.end);
  }

  /** Over every run, a PROCESSOR boot finds the exception log, the reset area and the user reserved
      area byte for byte as the process before left them, unless that process deleted the segment;
      after a POWERON boot, or a deletion, they are zero. */
  lemma BlocksOverRun(p: Psp, sessions: seq<Session>, next: Session)
    requires Unborn(p) && sessions != [] && Orderly(p, sessions) && Orderly(p, sessions + [next])
    ensures
      var last := sessions[|sessions| - 1];
      var kept := LastBoot(p, sessions + [next]) == PROCESSOR;
      Found(After(p, sessions), next.option) ==
      Blocks(if kept && !DeletesReset(last.end) then last.left.exceptions else Zeros(|p.mem.exceptions|),
             if kept && !DeletesReset(last.end) then last.left.resetArea else Zeros(|p.mem.resetArea|),
             if kept && !DeletesUser(last.end) then last.left.user else Zeros(|p.mem.user|))
  {
    assert (sessions + [next])[..|sessions|] == sessions;
    LinksOverRun(p, sessions);
    LeftOverRun(p, sessions);
    BootedBlocks(After(p, sessions), next.option);
  }

  /** The first boot finds everything zero, whatever -R says. */
  lemma FirstBootFindsNothing(p: Psp, option: Option<string>)
    requires Unborn(p)
    ensures Booted(p, option).mem.cds == Zeros(|p.mem.cds|)
    ensures Found(p, option) == Blocks(Zeros(|p.mem.exceptions|), Zeros(|p.mem.resetArea|), Zeros(|p.mem.user|))
  {
    BootedCds(p, option);
    BootedBlocks(p, option);
  }

  // ---------------------------------------------------------------- the record over a run

  /** What the last process leaves in the boot record: a crash leaves the flag invalid and the type
      that the policy gives next; a completed restart, and no crash, leaves the flag valid and the
      type that was asked for. */
  lemma RecordOverRun(p: Psp, sessions: seq<Session>)
    requires Orderly(p, sessions) && sessions != []
    ensures
      var boot, end := After(p, sessions).mem.boot, sessions[|sessions| - 1].end;
      && (end.Crash? ==>
          boot == BootRecord(0xd514_167b, if LastBoot(p, sessions) == POWERON then PROCESSOR else POWERON))
      && (end.Directed? ==> boot == BootRecord(0x2aeb_e984, end.resetType))
      && (end.CutShort? ==>
          (boot.validityFlag == 0x2aeb_e984 <==> end.resetType != POWERON && end.steps >= 2))
  {
    BootedRecord(After(p, sessions[..|sessions| - 1]), sessions[|sessions| - 1].option);
  }

  /** The policy in full, for a process that crashes or completes a restart and a boot without -R. */
  lemma PolicyStated(p: Psp, sessions: seq<Session>, next: Session)
    requires sessions != [] && Orderly(p, sessions) && Orderly(p, sessions + [next]) && next.option.None?
    ensures
      var end, boot := sessions[|sessions| - 1].end, LastBoot(p, sessions + [next]);
      && (end.Crash? ==> boot == if LastBoot(p, sessions) == POWERON then PROCESSOR else POWERON)
      && (end.Directed? ==> boot == if end.resetType == PROCESSOR then PROCESSOR else POWERON)
  {
    BootsFollowPolicy(p, sessions, next);
  }

  // ---------------------------------------------------------------- emptied without a power-on boot

  /** A process dies inside a power-on restart when the store is deleted and nothing says so yet. */
  predicate LosesStore(end: Ending) {
    && end.CutShort? && end.resetType == POWERON && end.deleted.cds
    && 1 <= end.steps < 4 && !(end.steps >= 2 && end.deleted.reset)
  }

  /** The store is emptied under a processor boot only after a crash part-way through a power-on
      restart: the store's segment was deleted and neither the reset segment nor the record says so. */
  lemma EmptiedUnderProcessorBoot(last: uint32, end: Ending)
    requires last == PROCESSOR || last == POWERON
    requires end.CutShort? ==> end.steps < ALL_STEPS
    ensures DeletesCds(end) && NextBoot(last, end) == PROCESSOR <==> last == POWERON && LosesStore(end)
  {
  }

  /** The writes since the latest power-on boot. */
  ghost function SincePowerOn(p: Psp, sessions: seq<Session>): (history: seq<CdsWrite>)
    requires Orderly(p, sessions)
    ensures PlainWrites(history, |p.mem.cds|)
    decreases |sessions|
  {
    if sessions == [] then []
    else
      var last := sessions[|sessions| - 1];
      (if LastBoot(p, sessions) == POWERON then [] else SincePowerOn(p, sessions[..|sessions| - 1])) + last.writes
  }

  /** No processor boot follows an ending that deletes the store. */
  ghost predicate NeverEmptied(p: Psp, sessions: seq<Session>)
    requires Orderly(p, sessions)
    decreases |sessions|
  {
    |sessions| > 1 ==>
      && NeverEmptied(p, sessions[..|sessions| - 1])
      && (DeletesCds(sessions[|sessions| - 2].end) ==> LastBoot(p, sessions) == POWERON)
  }

  lemma {:induction false} HistoryIsSincePowerOn(p: Psp, sessions: seq<Session>)
    requires Unborn(p) && Orderly(p, sessions) && NeverEmptied(p, sessions)
    ensures History(p, sessions) == SincePowerOn(p, sessions)
    decreases |sessions|
  {
    if sessions != [] {
      HistoryIsSincePowerOn(p, sessions[..|sessions| - 1]);
    }
  }

  /** Each byte of the store is the last byte written there since the latest power-on boot, or 0. */
  ghost predicate Promised(p: Psp, sessions: seq<Session>)
    requires Orderly(p, sessions)
  {
    forall o :: 0 <= o < |p.mem.cds| ==>
      After(p, sessions).mem.cds[o] == LastByte(SincePowerOn(p, sessions), o, |p.mem.cds|)
  }

  /** With or without -R, and whatever dies where, the store is what was written since the latest
      power-on boot, however many processor boots lie between, as long as no processor boot follows
      an ending that deletes it. */
  lemma StoreSincePowerOn(p: Psp, sessions: seq<Session>)
    requires Unborn(p) && Orderly(p, sessions) && NeverEmptied(p, sessions)
    ensures Promised(p, sessions)
  {
    HistoryIsSincePowerOn(p, sessions);
    forall o | 0 <= o < |p.mem.cds|
      ensures After(p, sessions).mem.cds[o] == LastByte(SincePowerOn(p, sessions), o, |p.mem.cds|)
    {
      StoreIsHistory(p, sessions, o);
    }
  }

  // ---------------------------------------------------------------- and exactly when

  /** The same options and endings, with any writes. */
  ghost predicate SameShape(a: seq<Session>, b: seq<Session>) {
    |a| == |b| && forall i :: 0 <= i < |a| ==> a[i].option == b[i].option && a[i].end == b[i].end
  }

  lemma SessionShape(p: Psp, q: Psp, s: Session, t: Session)
    requires |p.mem.cds| < TWO32 && PlainWrites(s.writes, |p.mem.cds|)
    requires |q.mem.cds| < TWO32 && PlainWrites(t.writes, |q.mem.cds|)
    requires p.links == q.links && p.mem.boot == q.mem.boot && s.option == t.option && s.end == t.end
    ensures BootType(p, s.option) == BootType(q, t.option)
    ensures AfterSession(p, s).links == AfterSession(q, t).links
    ensures AfterSession(p, s).mem.boot == AfterSession(q, t).mem.boot
  {
  }

  /** What is written has no influence on the boots. */
  lemma {:induction false} ShapeDecides(p: Psp, a: seq<Session>, b: seq<Session>)
    requires Orderly(p, a) && Orderly(p, b) && SameShape(a, b)
    ensures After(p, a).links == After(p, b).links && After(p, a).mem.boot == After(p, b).mem.boot
    ensures a != [] ==> LastBoot(p, a) == LastBoot(p, b)
    decreases |a|
  {
    if a != [] {
      var n := |a| - 1;
      ShapeDecides(p, a[..n], b[..n]);
      SessionShape(After(p, a[..n]), After(p, b[..n]), a[n], b[n]);
    }
  }

  lemma {:induction false} NeverEmptiedShape(p: Psp, a: seq<Session>, b: seq<Session>)
    requires Orderly(p, a) && Orderly(p, b) && SameShape(a, b) && NeverEmptied(p, a)
    ensures NeverEmptied(p, b)
    decreases |a|
  {
    if |a| > 1 {
      NeverEmptiedShape(p, a[..|a| - 1], b[..|a| - 1]);
      ShapeDecides(p, a, b);
    }
  }

  lemma {:induction false} NeverEmptiedPrefix(p: Psp, sessions: seq<Session>, k: nat)
    requires Orderly(p, sessions) && NeverEmptied(p, sessions) && k <= |sessions|
    ensures Orderly(p, sessions[..k]) && NeverEmptied(p, sessions[..k])
    decreases |sessions|
  {
    if k == |sessions| {
      assert sessions[..k] == sessions;
    } else if |sessions| > 1 {
      var front := sessions[..|sessions| - 1];
      NeverEmptiedPrefix(p, front, k);
      assert front[..k] == sessions[..k];
    }
  }

  /** The last boot is a processor boot that finds the store deleted. */
  ghost predicate FindsDeleted(p: Psp, sessions: seq<Session>) {
    && Orderly(p, sessions) && |sessions| > 1
    && DeletesCds(sessions[|sessions| - 2].end) && LastBoot(p, sessions) != POWERON
  }

  /** The first such boot, if there is one. */
  lemma {:induction false} FirstEmptied(p: Psp, sessions: seq<Session>) returns (k: nat)
    requires Orderly(p, sessions) && !NeverEmptied(p, sessions)
    ensures 2 <= k <= |sessions| && FindsDeleted(p, sessions[..k])
    decreases |sessions|
  {
    var front := sessions[..|sessions| - 1];
    if NeverEmptied(p, front) {
      k := |sessions|;
      assert sessions[..k] == sessions;
    } else {
      k := FirstEmptied(p, front);
      assert front[..k] == sessions[..k];
    }
  }

  /** A boot that finds the store deleted, and writes nothing, leaves it empty. */
  lemma EmptiedStore(p: Psp, front: seq<Session>, t: Session)
    requires Unborn(p) && Orderly(p, front + [t]) && Orderly(p, front) && front != []
    requires DeletesCds(front[|front| - 1].end) && t.writes == []
    ensures After(p, front + [t]).mem.cds == Zeros(|p.mem.cds|)
  {
    assert (front + [t])[..|front|] == front;
    LinksOverRun(p, front);
    UnlinkedStore(After(p, front), t);
  }

  lemma UnlinkedStore(p: Psp, t: Session)
    requires |p.mem.cds| < TWO32 && !p.links.cds && t.writes == []
    ensures AfterSession(p, t).mem.cds == Zeros(|p.mem.cds|)
  {
    BootedCds(p, t.option);
  }

  /** A byte that the last session writes is the last byte written. */
  lemma JustWritten(p: Psp, front: seq<Session>, s: Session)
    requires Orderly(p, front + [s]) && |p.mem.cds| > 0 && s.writes == [CdsWrite(0, [7])]
    ensures LastByte(SincePowerOn(p, front + [s]), 0, |p.mem.cds|) == 7
  {
    assert (front + [s])[..|front|] == front;
    var earlier := if LastBoot(p, front + [s]) == POWERON then [] else SincePowerOn(p, front);
    LastByteAppend(earlier, s.writes[0], 0, |p.mem.cds|);
  }

  /** A byte written in the session before such a boot is gone after it. */
  lemma EmptiedBreaksPromise(p: Psp, before: seq<Session>, t: Session)
    requires Unborn(p) && Orderly(p, before + [t]) && Orderly(p, before) && before != []
    requires DeletesCds(before[|before| - 1].end) && t.writes == [] && LastBoot(p, before + [t]) != POWERON
    requires |p.mem.cds| > 0 && LastByte(SincePowerOn(p, before), 0, |p.mem.cds|) == 7
    ensures !Promised(p, before + [t])
  {
    var run := before + [t];
    EmptiedStore(p, before, t);
    assert run[..|before|] == before;
    assert SincePowerOn(p, run) == SincePowerOn(p, before);
    assert After(p, run).mem.cds[0] != LastByte(SincePowerOn(p, run), 0, |p.mem.cds|);
  }

  lemma BrokenRun(p: Psp, sessions: seq<Session>) returns (k: nat, run: seq<Session>)
    requires Unborn(p) && Orderly(p, sessions) && |p.mem.cds| > 0 && !NeverEmptied(p, sessions)
    ensures k <= |sessions| && SameShape(run, sessions[..k]) && Orderly(p, run) && !Promised(p, run)
  {
    k := FirstEmptied(p, sessions);
    var s, t := sessions[k - 2].(writes := [CdsWrite(0, [7])]), sessions[k - 1].(writes := []);
    run := Rewritten(p, sessions, k, s, t);
    JustWritten(p, sessions[..k - 2], s);
    ShapeDecides(p, run, sessions[..k]);
    EmptiedBreaksPromise(p, sessions[..k - 2] + [s], t);
  }

  /** The first `k` sessions with other writes in the last two. */
  lemma Rewritten(p: Psp, sessions: seq<Session>, k: nat, s: Session, t: Session) returns (run: seq<Session>)
    requires Orderly(p, sessions) && 2 <= k <= |sessions|
    requires s == sessions[k - 2].(writes := s.writes) && PlainWrites(s.writes, |p.mem.cds|)
    requires t == sessions[k - 1].(writes := t.writes) && PlainWrites(t.writes, |p.mem.cds|)
    ensures run == (sessions[..k - 2] + [s]) + [t] && SameShape(run, sessions[..k])
    ensures Orderly(p, sessions[..k]) && Orderly(p, sessions[..k - 2] + [s]) && Orderly(p, run)
  {
    run := (sessions[..k - 2] + [s]) + [t];
  }

  lemma KeptRun(p: Psp, sessions: seq<Session>, k: nat, run: seq<Session>)
    requires Unborn(p) && Orderly(p, sessions) && NeverEmptied(p, sessions)
    requires k <= |sessions| && SameShape(run, sessions[..k]) && Orderly(p, run)
    ensures Promised(p, run)
  {
    NeverEmptiedPrefix(p, sessions, k);
    NeverEmptiedShape(p, sessions[..k], run);
    StoreSincePowerOn(p, run);
  }

  /** The store is what was written since the latest power-on boot, at every point of the run and
      whatever the sessions write, if and only if no processor boot follows an ending that deletes
      the store. */
  lemma PromisedIff(p: Psp, sessions: seq<Session>)
    requires Unborn(p) && Orderly(p, sessions) && |p.mem.cds| > 0
    ensures NeverEmptied(p, sessions) <==>
      forall k, run :: 0 <= k <= |sessions| && SameShape(run, sessions[..k]) && Orderly(p, run) ==> Promised(p, run)
  {
    if NeverEmptied(p, sessions) {
      forall k, run | 0 <= k <= |sessions| && SameShape(run, sessions[..k]) && Orderly(p, run)
        ensures Promised(p, run)
      {
        KeptRun(p, sessions, k, run);
      }
    } else {
      var k, run := BrokenRun(p, sessions);
    }
  }

  /** Every ending but the last session's is harmless to the store it leaves. */
  ghost predicate NoLoss(p: Psp, sessions: seq<Session>)
    requires Orderly(p, sessions)
    decreases |sessions|
  {
    |sessions| > 1 ==>
      var front := sessions[..|sessions| - 1];
      NoLoss(p, front) && !(LastBoot(p, front) == POWERON && LosesStore(front[|front| - 1].end))
  }

  /** Without -R the condition is one on the endings: only a death at those few steps of a power-on
      restart, in a process that itself booted with a power-on reset, empties the store unseen. */
  lemma {:induction false} NeverEmptiedIff(p: Psp, sessions: seq<Session>)
    requires Orderly(p, sessions)
    requires forall i :: 0 <= i < |sessions| ==> sessions[i].option.None?
    ensures NeverEmptied(p, sessions) <==> NoLoss(p, sessions)
    decreases |sessions|
  {
    if |sessions| > 1 {
      var front, last := sessions[..|sessions| - 1], sessions[|sessions| - 1];
      assert sessions == front + [last];
      NeverEmptiedIff(p, front);
      LastStep(p, front, last);
    }
  }

  lemma LastStep(p: Psp, front: seq<Session>, last: Session)
    requires Orderly(p, front + [last]) && Orderly(p, front) && front != [] && last.option.None?
    requires NeverEmptied(p, front) <==> NoLoss(p, front)
    ensures NeverEmptied(p, front + [last]) <==> NoLoss(p, front + [last])
  {
    assert (front + [last])[..|front|] == front;
    LossAtBoot(p, front, last);
  }

  lemma LossAtBoot(p: Psp, front: seq<Session>, last: Session)
    requires Orderly(p, front + [last]) && Orderly(p, front) && front != [] && last.option.None?
    ensures
      var end := front[|front| - 1].end;
      (DeletesCds(end) ==> LastBoot(p, front + [last]) == POWERON) <==>
      !(LastBoot(p, front) == POWERON && LosesStore(end))
  {
    BootsFollowPolicy(p, front, last);
    BootIsEither(p, front);
    BootIsEither(p, front + [last]);
    EmptiedUnderProcessorBoot(LastBoot(p, front), front[|front| - 1].end);
  }

  lemma BootIsEither(p: Psp, sessions: seq<Session>)
    requires Orderly(p, sessions) && sessions != []
    ensures LastBoot(p, sessions) == PROCESSOR || LastBoot(p, sessions) == POWERON
  {
  }

  /** A run in which a store is lost so: a byte is written, the process dies after deleting the store's
      segment, and the next boot is a processor reset that finds 0. */
  lemma CutShortRestartLosesStore(w: CdsWrite)
    requires w == CdsWrite(0, [7])
    ensures
      var p := Psp(Memory(Zeros(1), BootRecord(0, 0), [], [], []), Links(false, false, false));
      var first := Session(None, [w], Blocks([], [], []), CutShort(POWERON, Links(true, true, true), 1));
      var next := Session(None, [], Blocks([], [], []), Crash);
      && Orderly(p, [first]) && After(p, [first]).mem.cds == [7]
      && BootType(After(p, [first]), next.option) == PROCESSOR
      && Booted(After(p, [first]), next.option).mem.cds == [0]
  {
    var p := Psp(Memory(Zeros(1), BootRecord(0, 0), [], [], []), Links(false, false, false));
    var first := Session(None, [w], Blocks([], [], []), CutShort(POWERON, Links(true, true, true), 1));
    assert [first][..0] == [];
    assert After(p, []) == p;
    var booted := Booted(p, None);
    BootedRecord(p, None);
    assert [w][..0] == [];
    assert AllWritten(booted.mem.cds, []) == Zeros(1);
    assert AllWritten(booted.mem.cds, [w]) == [7];
  }
}
