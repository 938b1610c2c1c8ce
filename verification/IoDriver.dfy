/** The device driver lock table (fsw/modules/iodriver/src/iodriver.c): which mutex a command takes,
    and any number of threads running commands at once. */
module IoDriver {
  import opened Bits

  const LOCK_TABLE_SIZE: nat := 7
  const ERROR_NOT_IMPLEMENTED := -27

  type int32 = x: int | -0x8000_0000 <= x < 0x8000_0000

  /** An OSAL object ID; 0 is OS_OBJECT_ID_UNDEFINED. */
  type MutexId = nat

  const UNDEFINED: MutexId := 0

  // ---------------------------------------------------------------- choosing a mutex

  /** The slot of the lock table. The branch for module 0 makes no difference: a slot is always the
      combination of hash and module, folded into the table. */
  function Slot(moduleId: uint32, deviceHash: nat): (slot: nat)
    ensures slot == Xor(deviceHash, moduleId) % LOCK_TABLE_SIZE
  {
    (if moduleId != 0 then Xor(deviceHash, moduleId) else deviceHash) % LOCK_TABLE_SIZE
  }

  type LockTable = t: seq<MutexId> | |t| == LOCK_TABLE_SIZE
    witness seq(LOCK_TABLE_SIZE, _ => UNDEFINED)

  /** The mutex in the slot of hash xor module, or none for a negative hash. */
  function GetMutex(table: LockTable, moduleId: uint32, deviceHash: int32): (id: MutexId)
    ensures deviceHash < 0 ==> id == UNDEFINED
    ensures deviceHash >= 0 ==> id == table[Xor(deviceHash, moduleId) % 7]
  {
    if deviceHash < 0 then UNDEFINED else table[Slot(moduleId, deviceHash)]
  }

  /** CFE_PSP_IODriver_HashMutex, with 32-bit wrap-around. */
  function HashMutex(startHash: int32, datum: int32): nat {
    And(Wrap32(startHash + Wrap32(datum * 0x10AB)), 0x7FFF_FFFF)
  }

  /** A combined hash is the sum of the start and the scaled datum in 31-bit arithmetic, so it is
      never negative. */
  lemma HashValue(startHash: int32, datum: int32)
    ensures HashMutex(startHash, datum) == (startHash + datum * 0x10AB) % 0x8000_0000 < 0x8000_0000
  {
    var sum := startHash + Wrap32(datum * 0x10AB);
    WithoutSign(Wrap32(sum));
    LowerHalf(sum);
    WrappedSum(startHash, datum * 0x10AB);
  }

  /** It therefore always selects a mutex of the table. */
  lemma HashAlwaysLocks(table: LockTable, moduleId: uint32, startHash: int32, datum: int32)
    requires forall i :: 0 <= i < LOCK_TABLE_SIZE ==> table[i] != UNDEFINED
    ensures HashMutex(startHash, datum) < 0x8000_0000
    ensures GetMutex(table, moduleId, HashMutex(startHash, datum)) != UNDEFINED
  {
    HashValue(startHash, datum);
  }

  lemma WithoutSign(x: uint32)
    ensures And(x, 0x7FFF_FFFF) == x % 0x8000_0000
  {
    Pow2Literals();
    AndMask(x, 31);
  }

  lemma LowerHalf(x: int)
    ensures Wrap32(x) % 0x8000_0000 == x % 0x8000_0000
  {
    ModOfMultiple(x, 0x8000_0000, 2);
  }

  lemma WrappedSum(x: int, y: int)
    ensures (x + Wrap32(y)) % 0x8000_0000 == (x + y) % 0x8000_0000
  {
    var q := y / TWO32;
    assert x + Wrap32(y) == x + y + (-2 * q) * 0x8000_0000;
    ModAddMultiple(x + y, 0x8000_0000, -2 * q);
  }

  // ---------------------------------------------------------------- one command

  datatype Event = Took(id: MutexId) | Called(result: int) | Gave(id: MutexId)

  /** A driver's entry points; `None` stands for a NULL function pointer. */
  datatype Api = Api(deviceCommand: Option<Call -> int>, deviceMutex: Option<Call -> int32>)

  datatype Call = Call(commandCode: nat, subsystemId: nat, subchannelId: nat, arg: int)

  /** What one command does under a mutex, or under none. */
  function CommandTrace(id: MutexId, result: int): seq<Event> {
    if id == UNDEFINED then [Called(result)] else [Took(id), Called(result), Gave(id)]
  }

  class Driver {
    const table: array<MutexId>
    /** What the command has done to the mutexes and the driver, in order. */
    ghost var trace: seq<Event>

    ghost predicate Valid() {
      table.Length == LOCK_TABLE_SIZE
    }

    /** iodriver_Init: `create` is the outcome of each OS_MutSemCreate. */
    constructor (create: nat -> MutexId)
      ensures Valid() && trace == []
      ensures forall i :: 0 <= i < LOCK_TABLE_SIZE ==> table[i] == create(i)
    {
      table := new MutexId[LOCK_TABLE_SIZE](i => create(i));
      trace := [];
    }

    /** CFE_PSP_IODriver_Command. */
    method Command(api: Api, moduleId: uint32, call: Call) returns (result: int)
      requires Valid()
      modifies this`trace
      ensures api.deviceCommand.None? ==> result == ERROR_NOT_IMPLEMENTED && trace == old(trace)
      ensures api.deviceCommand.Some? ==>
        var id :=
          if api.deviceMutex.Some? then GetMutex(table[..], moduleId, api.deviceMutex.value(call)) else UNDEFINED;
        && result == api.deviceCommand.value(call)
        && trace == old(trace) + (if id == UNDEFINED then [Called(result)] else [Took(id), Called(result), Gave(id)])
    {
      if api.deviceCommand.Some? {
        var mutexId := UNDEFINED;
        if api.deviceMutex.Some? {
          mutexId := GetMutex(table[..], moduleId, api.deviceMutex.value(call));
        }
        if mutexId != UNDEFINED {
          trace := trace + [Took(mutexId)];
        }
        result := api.deviceCommand.value(call);
        trace := trace + [Called(result)];
        if mutexId != UNDEFINED {
          trace := trace + [Gave(mutexId)];
        }
      } else {
        result := ERROR_NOT_IMPLEMENTED;
      }
    }
  }

  // ---------------------------------------------------------------- many threads

  /** The module a command is for, and the hash of the device it names; the hash is negative for a
      driver that needs no lock or has no function to compute one. */
  datatype Device = Device(moduleId: uint32, hash: int32)

  /** Where a thread is in CFE_PSP_IODriver_Command. */
  datatype Phase = Outside | Waiting(device: Device) | Inside(device: Device)

  /** All threads, and the owner of each mutex that is taken. Drivers do not issue commands from
      inside a command. */
  datatype World = World(table: LockTable, threads: map<nat, Phase>, owners: map<MutexId, nat>) {
    function Mutex(d: Device): MutexId {
      GetMutex(table, d.moduleId, d.hash)
    }
  }

  datatype Action = Enter(device: Device) | Take | Leave(result: int)

  /** Whether a thread can take a step; a mutex can be taken only while nobody owns it. */
  predicate Enabled(w: World, t: nat, a: Action) {
    && t in w.threads
    && match a
       case Enter(_) => w.threads[t] == Outside
       case Take => w.threads[t].Waiting? && w.Mutex(w.threads[t].device) !in w.owners
       case Leave(_) => w.threads[t].Inside?
  }

  function Step(w: World, t: nat, a: Action): World {
    if !Enabled(w, t, a) then w
    else
      match a
      case Enter(d) => w.(threads := w.threads[t := if w.Mutex(d) == UNDEFINED then Inside(d) else Waiting(d)])
      case Take =>
        var d := w.threads[t].device;
        w.(threads := w.threads[t := Inside(d)], owners := w.owners[w.Mutex(d) := t])
      case Leave(_) =>
        var id := w.Mutex(w.threads[t].device);
        w.(threads := w.threads[t := Outside], owners := if id == UNDEFINED then w.owners else w.owners - {id})
  }

  function Run(w: World, steps: seq<(nat, Action)>): World
    decreases |steps|
  {
    if steps == [] then w else Run(Step(w, steps[0].0, steps[0].1), steps[1..])
  }

  ghost predicate AllOutside(w: World) {
    w.owners == map[] && forall t :: t in w.threads ==> w.threads[t] == Outside
  }

  /** Thread `t` is inside a command under a mutex. */
  predicate Locked(w: World, t: nat) {
    t in w.threads && w.threads[t].Inside? && w.Mutex(w.threads[t].device) != UNDEFINED
  }

  /** A mutex is owned exactly by the thread that is inside a command under it. */
  ghost predicate Inv(w: World) {
    && (forall t :: t in w.threads && w.threads[t].Waiting? ==> w.Mutex(w.threads[t].device) != UNDEFINED)
    && (forall id :: id in w.owners ==> Locked(w, w.owners[id]) && w.Mutex(w.threads[w.owners[id]].device) == id)
    && (forall t :: Locked(w, t) ==>
         w.Mutex(w.threads[t].device) in w.owners && w.owners[w.Mutex(w.threads[t].device)] == t)
  }

  /** What stays the same for good. */
  predicate SameSystem(w: World, v: World) {
    v.threads.Keys == w.threads.Keys && v.table == w.table
  }

  lemma StepKeeps(w: World, t: nat, a: Action)
    requires Inv(w)
    ensures Inv(Step(w, t, a)) && SameSystem(w, Step(w, t, a))
  {
    if Enabled(w, t, a) {
      match a
      case Enter(d) => EnterKeeps(w, t, d);
      case Take => TakeKeeps(w, t);
      case Leave(result) => LeaveKeeps(w, t, result);
    }
  }

  lemma EnterKeeps(w: World, t: nat, d: Device)
    requires Inv(w) && Enabled(w, t, Enter(d))
    ensures Inv(Step(w, t, Enter(d)))
  {
  }

  lemma TakeKeeps(w: World, t: nat)
    requires Inv(w) && Enabled(w, t, Take)
    ensures Inv(Step(w, t, Take))
  {
  }

  lemma LeaveKeeps(w: World, t: nat, result: int)
    requires Inv(w) && Enabled(w, t, Leave(result))
    ensures Inv(Step(w, t, Leave(result)))
  {
  }

  lemma {:induction false} RunKeeps(w: World, steps: seq<(nat, Action)>)
    requires Inv(w)
    ensures Inv(Run(w, steps)) && SameSystem(w, Run(w, steps))
    decreases |steps|
  {
    if steps != [] {
      StepKeeps(w, steps[0].0, steps[0].1);
      RunKeeps(Step(w, steps[0].0, steps[0].1), steps[1..]);
    }
  }

  /** What a step of thread `t` does, in the terms of `Driver.Command`. */
  function Emitted(w: World, t: nat, a: Action): seq<Event> {
    if !Enabled(w, t, a) then []
    else
      match a
      case Enter(_) => []
      case Take => [Took(w.Mutex(w.threads[t].device))]
      case Leave(result) =>
        var id := w.Mutex(w.threads[t].device);
        if id == UNDEFINED then [Called(result)] else [Called(result), Gave(id)]
  }

  /** Everything thread `t` does in a run. */
  function Log(w: World, steps: seq<(nat, Action)>, t: nat): seq<Event>
    decreases |steps|
  {
    if steps == [] then []
    else (if steps[0].0 == t then Emitted(w, t, steps[0].1) else [])
         + Log(Step(w, steps[0].0, steps[0].1), steps[1..], t)
  }

  function Traces(table: LockTable, commands: seq<(Device, int)>): seq<Event> {
    if commands == [] then []
    else CommandTrace(GetMutex(table, commands[0].0.moduleId, commands[0].0.hash), commands[0].1)
         + Traces(table, commands[1..])
  }

  /** What a thread inside a command has already done. */
  function Begun(w: World, t: nat): seq<Event> {
    if Locked(w, t) then [Took(w.Mutex(w.threads[t].device))] else []
  }

  lemma StepBegun(w: World, u: nat, a: Action, t: nat)
    requires Inv(w)
    ensures
      var now := Begun(w, t) + (if u == t then Emitted(w, t, a) else []);
      if u == t && a.Leave? && Enabled(w, t, a) then
        now == CommandTrace(w.Mutex(w.threads[t].device), a.result) && Begun(Step(w, u, a), t) == []
      else now == Begun(Step(w, u, a), t)
  {
  }

  /** In every interleaving, what a thread does is the traces of whole commands, one after the other,
      and the beginning of one more while it is inside. */
  lemma {:induction false} LogIsCommands(w: World, steps: seq<(nat, Action)>, t: nat)
    returns (commands: seq<(Device, int)>)
    requires Inv(w)
    ensures Begun(w, t) + Log(w, steps, t) == Traces(w.table, commands) + Begun(Run(w, steps), t)
    decreases |steps|
  {
    if steps == [] {
      commands := [];
    } else {
      var (u, a) := steps[0];
      var next := Step(w, u, a);
      StepKeeps(w, u, a);
      StepBegun(w, u, a, t);
      var rest := LogIsCommands(next, steps[1..], t);
      var now := if u == t then Emitted(w, t, a) else [];
      var later, end := Log(next, steps[1..], t), Begun(Run(next, steps[1..]), t);
      Assoc(Begun(w, t), now, later);
      if u == t && a.Leave? && Enabled(w, t, a) {
        commands := [(w.threads[t].device, a.result)] + rest;
        assert commands[1..] == rest;
        NoBeginning(later);
        Assoc(CommandTrace(w.Mutex(w.threads[t].device), a.result), Traces(w.table, rest), end);
      } else {
        commands := rest;
      }
    }
  }

  /** A command whose mutex is free goes through: it is inside after taking it, and at its end the
      world is as before. Its log is the trace of `Driver.Command`. */
  lemma FreeCommandCompletes(w: World, t: nat, d: Device, result: int)
    requires Inv(w) && t in w.threads && w.threads[t] == Outside && w.Mutex(d) !in w.owners
    ensures
      var steps := [(t, Enter(d)), (t, Take), (t, Leave(result))];
      && Locked(Run(w, steps[..2]), t) == (w.Mutex(d) != UNDEFINED)
      && t in Run(w, steps[..2]).threads && Run(w, steps[..2]).threads[t] == Inside(d)
      && Run(w, steps) == w
      && Log(w, steps, t) == CommandTrace(w.Mutex(d), result)
  {
    var steps := [(t, Enter(d)), (t, Take), (t, Leave(result))];
    var w1 := Step(w, t, Enter(d));
    var w2 := Step(w1, t, Take);
    var w3 := Step(w2, t, Leave(result));
    assert steps[..2][1..] == [(t, Take)] && [(t, Take)][1..] == [];
    assert steps[1..] == [(t, Take), (t, Leave(result))] && steps[1..][1..] == [(t, Leave(result))];
    assert [(t, Leave(result))][1..] == [];
    assert Run(w2, []) == w2 && Run(w1, [(t, Take)]) == w2;
    assert Run(w3, []) == w3 && Run(w2, [(t, Leave(result))]) == w3;
    assert Run(w1, steps[1..]) == w3;
    assert Log(w3, [], t) == [];
    assert Log(w2, [(t, Leave(result))], t) == Emitted(w2, t, Leave(result));
    BackOutside(w, t, d, result);
  }

  lemma BackOutside(w: World, t: nat, d: Device, result: int)
    requires Inv(w) && t in w.threads && w.threads[t] == Outside && w.Mutex(d) !in w.owners
    ensures
      var w1 := Step(w, t, Enter(d));
      var w2 := Step(w1, t, Take);
      && w2.threads[t] == Inside(d)
      && Step(w2, t, Leave(result)) == w
      && Emitted(w, t, Enter(d)) + Emitted(w1, t, Take) + Emitted(w2, t, Leave(result)) ==
         CommandTrace(w.Mutex(d), result)
  {
  }

  lemma Assoc(a: seq<Event>, b: seq<Event>, c: seq<Event>)
    ensures a + (b + c) == (a + b) + c
  {
  }

  lemma NoBeginning(a: seq<Event>)
    ensures [] + a == a
  {
  }

  /** In every interleaving, two threads are never inside a command under the same mutex at once; and
      when every thread is back outside, every mutex has been given back. */
  lemma MutualExclusion(w0: World, steps: seq<(nat, Action)>)
    requires AllOutside(w0)
    ensures
      var w := Run(w0, steps);
      && (forall t, u :: Locked(w, t) && Locked(w, u) && t != u ==>
            w.Mutex(w.threads[t].device) != w.Mutex(w.threads[u].device))
      && ((forall t :: t in w.threads ==> w.threads[t] == Outside) ==> w.owners == map[])
  {
    RunKeeps(w0, steps);
  }

  /** No deadlock: a waiting thread can take its mutex, or can as soon as its owner, who is never
      waiting, leaves. */
  lemma WaitingEnds(w0: World, steps: seq<(nat, Action)>, t: nat)
    requires AllOutside(w0)
    requires var w := Run(w0, steps); t in w.threads && w.threads[t].Waiting?
    ensures
      var w := Run(w0, steps);
      || Enabled(w, t, Take)
      || exists u :: u != t && Enabled(w, u, Leave(0)) && Enabled(Step(w, u, Leave(0)), t, Take)
  {
    RunKeeps(w0, steps);
    var w := Run(w0, steps);
    var id := w.Mutex(w.threads[t].device);
    if id in w.owners {
      var u := w.owners[id];
      assert Enabled(w, u, Leave(0)) && Enabled(Step(w, u, Leave(0)), t, Take);
    }
  }

  /** In every interleaving, two threads inside a command for the same module, whose hashes are equal
      and not negative, are the same thread; this needs a lock table whose mutexes were created. */
  lemma SameDeviceSerialized(w0: World, steps: seq<(nat, Action)>, t: nat, u: nat)
    requires AllOutside(w0) && forall i :: 0 <= i < LOCK_TABLE_SIZE ==> w0.table[i] != UNDEFINED
    requires
      var w := Run(w0, steps);
      && t in w.threads && w.threads[t].Inside? && w.threads[t].device.hash >= 0
      && u in w.threads && w.threads[u] == w.threads[t]
    ensures t == u
  {
    RunKeeps(w0, steps);
    MutualExclusion(w0, steps);
  }

  /** The lock is needed for that: under a negative hash two threads are inside at once. */
  lemma UnlockedTogether(w0: World, t: nat, u: nat, d: Device)
    requires AllOutside(w0) && t in w0.threads && u in w0.threads && t != u && d.hash < 0
    ensures
      var w := Run(w0, [(t, Enter(d)), (u, Enter(d))]);
      t in w.threads && u in w.threads && w.threads[t] == w.threads[u] == Inside(d)
  {
    var steps := [(t, Enter(d)), (u, Enter(d))];
    assert steps[1..] == [(u, Enter(d))];
    var w1 := Step(w0, t, Enter(d));
    var w2 := Step(w1, u, Enter(d));
    assert Run(w2, []) == w2;
    assert Run(w1, [(u, Enter(d))]) == w2;
  }
}
