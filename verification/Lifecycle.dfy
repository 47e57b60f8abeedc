/**
 The transcoder's life cycle as a concurrent protocol. Any number of callers
 run SetConfig, InitalAvio, Process, CleanUp and StopProcess; every atomic
 step of every call is interleaved in every way. A call is a program of
 instructions; the outcome of a set-up is fixed when the call starts.

 The status is read by StopProcess without the state lock, as the original
 does. The stop flag and the pointer to the input context are plain variables
 that are written and read by different threads, partly without a lock; here
 every access to them is one atomic step. A wait ends only by a notification or
 by a spurious wake-up. The release of the contexts in CleanUp is taken to
 return.
 */
module Lifecycle {
  import opened TransState
  import opened Wrappers

  datatype Entry = ViaConfig | ViaAvio

  /** How a set-up ends; only InitalAvio can fail to allocate its context. */
  datatype Result = Succeeds | OutputFails | InputFails | NoContext

  /** A set-up opens an input that holds `packets` and registers `streams`, up to its failure if an output fails. */
  datatype Kind =
    | SetUpCall(entry: Entry, result: Result, packets: nat, streams: set<nat>)
    | ProcessCall
    | CleanUpCall
    | StopCall

  datatype Instr =
    | LockState | Write(s: StateId) | UnlockState
    | LockProcess | UnlockProcess
    | Open(packets: nat, allocates: bool) | Register(keeps: bool, streams: set<nat>) | Close
    | Capture | InitTools | Poll | Read | FlushAll | CleanAll
    | CheckProcess | SetTurnoff
    | LockCleanup | Wait | Sleep | UnlockCleanup | Notify

  function Length(kind: Kind): (n: nat)
  {
    match kind
    case SetUpCall(_, _, _, _) => 10
    case ProcessCall => 14
    case CleanUpCall => 10
    case StopCall => 7
  }

  /** A failing SetConfig leaves its locked block before it writes the failure; InitalAvio writes it inside. */
  predicate LateFailure(kind: Kind) { kind.SetUpCall? && !kind.result.Succeeds? && kind.entry.ViaConfig? }

  /** The program of each kind of call, one instruction for each index. */
  function Instruction(kind: Kind, pc: nat): (instr: Instr)
    requires pc < Length(kind)
  {
    match kind
    case SetUpCall(entry, result, packets, streams) => (
      match pc
      case 0 => LockState
      case 1 => Write(SetConfig)
      case 2 => UnlockState
      case 3 => LockProcess
      case 4 => Open(packets, entry.ViaConfig? || !result.NoContext?)
      case 5 => Register(result.Succeeds? || result.OutputFails?, streams)
      case 6 => if LateFailure(kind) then UnlockProcess else LockState
      case 7 =>
        if LateFailure(kind) then LockState else Write(if result.Succeeds? then SetConfigFinished else SetFailed)
      case 8 => if LateFailure(kind) then Write(SetFailed) else UnlockState
      case _ => if LateFailure(kind) then UnlockState else UnlockProcess)
    case ProcessCall => (
      match pc
      case 0 => Capture
      case 1 => LockState
      case 2 => Write(Process)
      case 3 => UnlockState
      case 4 => LockProcess
      case 5 => InitTools
      case 6 => Poll
      case 7 => Read
      case 8 => FlushAll
      case 9 => CleanAll
      case 10 => LockState
      case 11 => Write(Finished)
      case 12 => UnlockState
      case _ => UnlockProcess)
    case CleanUpCall => (
      match pc
      case 0 => LockProcess
      case 1 => LockState
      case 2 => Write(Reset)
      case 3 => UnlockState
      case 4 => Close
      case 5 => LockState
      case 6 => Write(Idle)
      case 7 => UnlockState
      case 8 => Notify
      case _ => UnlockProcess)
    case StopCall => (
      match pc
      case 0 => CheckProcess
      case 1 => SetTurnoff
      case 2 => LockCleanup
      case 3 => Wait
      case 4 => Sleep
      case 5 => LockCleanup
      case _ => UnlockCleanup)
  }

  /** A call and the index of its next instruction. */
  datatype Call = Call(kind: Kind, pc: nat)
  {
    predicate Done() { pc >= Length(kind) }

    predicate At(instr: Instr) { pc < Length(kind) && Instruction(kind, pc) == instr }

    predicate Asleep() { kind.StopCall? && pc == 4 }
  }

  /** What a key of the stream map holds: an object, or the pointer that Process has reset. */
  datatype Slot = Live | Null

  /**
   Input contexts are numbered in the order in which they are allocated:
   `context` is the one the shared pointer holds, `inputs` are the packets that
   each still has, `closed` those that were closed, and `held` says which one
   each Process call has read from the pointer.

   Besides the shared variables the state records, for the proofs only, who
   wrote the status last, how many packets were read, and how many of those
   reads were made after the stop flag was set.
   */
  datatype State = State(
    status: StateId,
    stateLock: Option<nat>,
    processLock: Option<nat>,
    cleanupLock: Option<nat>,
    turnoff: bool,
    context: Option<nat>,
    inputs: seq<nat>,
    closed: set<nat>,
    held: map<nat, Option<nat>>,
    entries: map<nat, Slot>,
    readCount: nat,
    late: nat,
    writer: Option<nat>,
    calls: seq<Call>)

  const START: State := State(Initial, None, None, None, false, None, [], {}, map[], map[], 0, 0, None, [])

  // ---------- steps ----------

  predicate CanRun(s: State, i: nat)
  {
    && i < |s.calls| && !s.calls[i].Done()
    && match Instruction(s.calls[i].kind, s.calls[i].pc)
       case LockState => s.stateLock.None?
       case LockProcess => s.processLock.None?
       case LockCleanup => s.cleanupLock.None?
       case Sleep => false
       case _ => true
  }

  function Woken(c: Call): (c': Call)
  {
    if c.Asleep() then c.(pc := c.pc + 1) else c
  }

  function WakeAll(calls: seq<Call>): (woken: seq<Call>)
    ensures |woken| == |calls|
  {
    seq(|calls|, j requires 0 <= j < |calls| => Woken(calls[j]))
  }

  /** A read gives a packet of the call's own context unless it fails or none is left. */
  predicate Delivers(s: State, i: nat, readFails: bool)
  {
    && !readFails && i in s.held && s.held[i].Some?
    && s.held[i].value !in s.closed && s.held[i].value < |s.inputs| && s.inputs[s.held[i].value] > 0
  }

  /** Where call `i` goes on: the packet loop goes round, and a refused stop returns at once. */
  function NextPc(s: State, i: nat, readFails: bool): (pc: nat)
    requires CanRun(s, i)
  {
    var Call(kind, pc) := s.calls[i];
    match Instruction(kind, pc)
    case Poll => if s.turnoff then pc + 2 else pc + 1
    case Read => if Delivers(s, i, readFails) && pc > 0 then pc - 1 else pc + 1
    case CheckProcess => if s.status.Process? then pc + 1 else Length(kind)
    case _ => pc + 1
  }

  /** Registering a key that exists changes nothing. */
  function Registered(entries: map<nat, Slot>, streams: set<nat>): (entries': map<nat, Slot>)
  {
    map k | k in entries.Keys + streams :: if k in entries then entries[k] else Live
  }

  /** The contexts that are closed once the shared pointer's is. */
  function AfterClose(s: State): (closed: set<nat>)
  {
    if s.context.Some? then s.closed + {s.context.value} else s.closed
  }

  function AllNull(entries: map<nat, Slot>): (entries': map<nat, Slot>)
  {
    map k | k in entries :: Null
  }

  /**
   What an instruction of call `i` does to the shared variables. `readFails`
   lets a read fail although packets are left.
   */
  function Effect(s: State, i: nat, instr: Instr, readFails: bool): (s': State)
  {
    match instr
    case LockState => s.(stateLock := Some(i))
    case Write(st) => s.(status := st, writer := Some(i))
    case UnlockState => s.(stateLock := None)
    case LockProcess => s.(processLock := Some(i))
    case UnlockProcess => s.(processLock := None)
    case Capture => s.(held := s.held[i := s.context])
    case Open(packets, allocates) =>
      if allocates then s.(context := Some(|s.inputs|), inputs := s.inputs + [packets]) else s.(context := None)
    case Register(keeps, streams) =>
      if keeps then s.(entries := Registered(s.entries, streams)) else s.(context := None, closed := AfterClose(s))
    case Close => s.(context := None, closed := AfterClose(s), entries := map[])
    case CleanAll => s.(entries := AllNull(s.entries))
    case Read =>
      if Delivers(s, i, readFails) then
        var g := s.held[i].value;
        s.(inputs := s.inputs[g := s.inputs[g] - 1], readCount := s.readCount + 1,
           late := s.late + if s.turnoff then 1 else 0)
      else s
    case SetTurnoff => s.(turnoff := true)
    case LockCleanup => s.(cleanupLock := Some(i))
    case Wait => s.(cleanupLock := None)
    case UnlockCleanup => s.(cleanupLock := None)
    case _ => s
  }

  /** The calls among which call `i` takes its step: a notification wakes the sleepers first. */
  function Base(s: State, i: nat): (calls: seq<Call>)
    requires CanRun(s, i)
    ensures |calls| == |s.calls|
  {
    if Instruction(s.calls[i].kind, s.calls[i].pc).Notify? then WakeAll(s.calls) else s.calls
  }

  /** One step of call `i`. */
  function Exec(s: State, i: nat, readFails: bool): (s': State)
    requires CanRun(s, i)
  {
    var c := s.calls[i];
    var calls := Base(s, i)[i := c.(pc := NextPc(s, i, readFails))];
    Effect(s, i, Instruction(c.kind, c.pc), readFails).(calls := calls)
  }

  datatype Action = Start(kind: Kind) | Run(i: nat, readFails: bool) | SpuriousWake(i: nat)

  function Apply(s: State, a: Action): (r: Option<State>)
  {
    match a
    case Start(kind) => Some(s.(calls := s.calls + [Call(kind, 0)]))
    case Run(i, readFails) => if CanRun(s, i) then Some(Exec(s, i, readFails)) else None
    case SpuriousWake(i) =>
      if i < |s.calls| && s.calls[i].Asleep() then Some(s.(calls := s.calls[i := Woken(s.calls[i])])) else None
  }

  /** The state after a schedule, if every action of it could be taken. */
  function After(s: State, schedule: seq<Action>): (r: Option<State>)
    decreases |schedule|
  {
    if schedule == [] then Some(s)
    else match Apply(s, schedule[0])
      case None => None
      case Some(s') => After(s', schedule[1..])
  }

  ghost predicate Reachable(s: State)
  {
    exists schedule :: After(START, schedule) == Some(s)
  }

  // ---------- the invariant ----------

  predicate HoldsState(c: Call)
  {
    match c.kind
    case SetUpCall(_, _, _, _) => 1 <= c.pc <= 2 || (if LateFailure(c.kind) then 8 <= c.pc <= 9 else 7 <= c.pc <= 8)
    case ProcessCall => 2 <= c.pc <= 3 || 11 <= c.pc <= 12
    case CleanUpCall => 2 <= c.pc <= 3 || 6 <= c.pc <= 7
    case StopCall => false
  }

  predicate HoldsProcess(c: Call)
  {
    match c.kind
    case SetUpCall(_, _, _, _) => 4 <= c.pc <= (if LateFailure(c.kind) then 6 else 9)
    case ProcessCall => 5 <= c.pc <= 13
    case CleanUpCall => 1 <= c.pc <= 9
    case StopCall => false
  }

  predicate HoldsCleanup(c: Call) { c.kind.StopCall? && (c.pc == 3 || c.pc == 6) }

  /** The last status that the call has written. */
  function LastWrite(c: Call): (s: Option<StateId>)
  {
    match c.kind
    case SetUpCall(_, result, _, _) =>
      if c.pc >= (if LateFailure(c.kind) then 9 else 8)
      then Some(if result.Succeeds? then SetConfigFinished else SetFailed)
      else if c.pc >= 2 then Some(SetConfig) else None
    case ProcessCall => if c.pc >= 12 then Some(Finished) else if c.pc >= 3 then Some(Process) else None
    case CleanUpCall => if c.pc >= 7 then Some(Idle) else if c.pc >= 3 then Some(Reset) else None
    case StopCall => None
  }

  ghost predicate Owned(lock: Option<nat>, calls: seq<Call>, holds: Call -> bool)
  {
    && (lock.Some? ==> lock.value < |calls|)
    && forall i | 0 <= i < |calls| :: holds(calls[i]) <==> lock == Some(i)
  }

  ghost predicate Reading(s: State) { exists i | 0 <= i < |s.calls| :: s.calls[i].At(Read) }

  /** What one step does to its own call: lock by lock, and to its last write. */
  predicate StepsTo(c: Call, instr: Instr, c': Call)
  {
    && (HoldsState(c') <==> instr.LockState? || (HoldsState(c) && !instr.UnlockState?))
    && (instr.UnlockState? ==> HoldsState(c))
    && (HoldsProcess(c') <==> instr.LockProcess? || (HoldsProcess(c) && !instr.UnlockProcess?))
    && (instr.UnlockProcess? ==> HoldsProcess(c))
    && (HoldsCleanup(c') <==> instr.LockCleanup? || (HoldsCleanup(c) && !instr.Wait? && !instr.UnlockCleanup?))
    && (instr.Wait? || instr.UnlockCleanup? ==> HoldsCleanup(c))
    && LastWrite(c') == (if instr.Write? then Some(instr.s) else LastWrite(c))
    && c'.pc <= Length(c'.kind)
    && (c'.At(Read) ==> instr.Poll?)
    && (instr.Read? ==> HoldsProcess(c))
  }

  /** The places to which an instruction can lead. */
  predicate LeadsTo(c: Call, pc: nat)
    requires !c.Done()
  {
    match Instruction(c.kind, c.pc)
    case Poll => pc == c.pc + 1 || pc == c.pc + 2
    case Read => pc + 1 == c.pc || pc == c.pc + 1
    case CheckProcess => pc == c.pc + 1 || pc == Length(c.kind)
    case _ => pc == c.pc + 1
  }

  lemma SetUpStep(c: Call, pc: nat)
    requires !c.Done() && c.kind.SetUpCall? && LeadsTo(c, pc)
    ensures StepsTo(c, Instruction(c.kind, c.pc), c.(pc := pc))
  {
  }

  /** The straight part of Process before and after the packet loop. */
  lemma ProcessStraightStep(c: Call)
    requires !c.Done() && c.kind.ProcessCall? && c.pc != 6 && c.pc != 7
    ensures StepsTo(c, Instruction(c.kind, c.pc), c.(pc := c.pc + 1))
  {
  }

  lemma ProcessLoopStep(c: Call, pc: nat)
    requires c.kind.ProcessCall? && 6 <= c.pc <= 7 && 6 <= pc <= 8
    requires LeadsTo(c, pc)
    ensures StepsTo(c, Instruction(c.kind, c.pc), c.(pc := pc))
  {
  }

  lemma ProcessStep(c: Call, pc: nat)
    requires !c.Done() && c.kind.ProcessCall? && LeadsTo(c, pc)
    ensures StepsTo(c, Instruction(c.kind, c.pc), c.(pc := pc))
  {
    hide StepsTo;
    if 6 <= c.pc <= 7 {
      ProcessLoopStep(c, pc);
    } else {
      ProcessStraightStep(c);
    }
  }

  lemma CleanUpStep(c: Call, pc: nat)
    requires !c.Done() && c.kind.CleanUpCall? && LeadsTo(c, pc)
    ensures StepsTo(c, Instruction(c.kind, c.pc), c.(pc := pc))
  {
  }

  lemma StopStep(c: Call, pc: nat)
    requires !c.Done() && c.kind.StopCall? && LeadsTo(c, pc)
    ensures StepsTo(c, Instruction(c.kind, c.pc), c.(pc := pc))
  {
  }

  lemma CallStep(c: Call, pc: nat)
    requires !c.Done() && LeadsTo(c, pc)
    ensures StepsTo(c, Instruction(c.kind, c.pc), c.(pc := pc))
  {
    hide *;
    match c.kind
    case SetUpCall(_, _, _, _) => SetUpStep(c, pc);
    case ProcessCall => ProcessStep(c, pc);
    case CleanUpCall => CleanUpStep(c, pc);
    case StopCall => StopStep(c, pc);
  }

  /** Waking changes nothing that the invariant speaks of. */
  lemma WakeIsSilent(c: Call)
    ensures var c' := Woken(c);
            && (HoldsState(c') <==> HoldsState(c)) && (HoldsProcess(c') <==> HoldsProcess(c))
            && (HoldsCleanup(c') <==> HoldsCleanup(c)) && LastWrite(c') == LastWrite(c)
            && (c'.At(Read) <==> c.At(Read))
            && (c.pc <= Length(c.kind) ==> c'.pc <= Length(c'.kind))
  {
  }

  // ---------- the invariant is kept ----------

  /** If only call `i` changes, and it takes or gives up the lock properly, the lock is still owned. */
  lemma OwnedStep(lock: Option<nat>, calls: seq<Call>, holds: Call -> bool, i: nat, c': Call, lock': Option<nat>)
    requires Owned(lock, calls, holds) && i < |calls|
    requires
      || (lock' == lock && (holds(c') <==> holds(calls[i])))
      || (lock.None? && lock' == Some(i) && holds(c'))
      || (holds(calls[i]) && lock'.None? && !holds(c'))
    ensures Owned(lock', calls[i := c'], holds)
  {
  }

  lemma OwnedWoken(lock: Option<nat>, calls: seq<Call>, holds: Call -> bool)
    requires Owned(lock, calls, holds) && forall c: Call :: holds(Woken(c)) <==> holds(c)
    ensures Owned(lock, WakeAll(calls), holds)
  {
  }

  lemma OwnedStart(lock: Option<nat>, calls: seq<Call>, holds: Call -> bool, c: Call)
    requires Owned(lock, calls, holds) && !holds(c)
    ensures Owned(lock, calls + [c], holds)
  {
  }

  ghost predicate LocksOwned(s: State)
  {
    && Owned(s.stateLock, s.calls, HoldsState)
    && Owned(s.processLock, s.calls, HoldsProcess)
    && Owned(s.cleanupLock, s.calls, HoldsCleanup)
  }

  predicate InRange(calls: seq<Call>)
  {
    forall i | 0 <= i < |calls| :: calls[i].pc <= Length(calls[i].kind)
  }

  /** The status is what its last writer wrote last. */
  predicate StatusKept(s: State)
  {
    if s.writer.None? then s.status == Initial
    else s.writer.value < |s.calls| && LastWrite(s.calls[s.writer.value]) == Some(s.status)
  }

  /** At most one packet is read after the stop flag is set, and then nobody is about to read. */
  ghost predicate LateBounded(s: State)
  {
    s.late == 0 || (s.late == 1 && s.turnoff && !Reading(s))
  }

  /** The shared pointer does not hold a closed context, and all numbers are in use. */
  predicate ContextsNumbered(s: State)
  {
    && (s.context.Some? ==> s.context.value < |s.inputs| && s.context.value !in s.closed)
    && (forall g | g in s.closed :: g < |s.inputs|)
  }

  ghost predicate Inv(s: State)
  {
    LocksOwned(s) && InRange(s.calls) && StatusKept(s) && LateBounded(s) && ContextsNumbered(s)
  }

  /** What a step does to the input contexts and the stream map. */
  predicate SharedMatch(s: State, i: nat, instr: Instr, readFails: bool, s': State)
  {
    && s'.held == (if instr.Capture? then s.held[i := s.context] else s.held)
    && s'.context == (if instr.Open? && instr.allocates then Some(|s.inputs|)
                      else if instr.Open? || EndsContext(instr) then None else s.context)
    && s'.closed == (if EndsContext(instr) then AfterClose(s) else s.closed)
    && s'.inputs == (if instr.Open? && instr.allocates then s.inputs + [instr.packets]
                     else if instr.Read? && Delivers(s, i, readFails)
                     then s.inputs[s.held[i].value := s.inputs[s.held[i].value] - 1] else s.inputs)
    && s'.entries == (match instr
                      case Register(keeps, streams) => if keeps then Registered(s.entries, streams) else s.entries
                      case Close => map[]
                      case CleanAll => AllNull(s.entries)
                      case _ => s.entries)
  }

  /** The instruction closes the context of the shared pointer, if there is one. */
  predicate EndsContext(instr: Instr) { instr.Close? || (instr.Register? && !instr.keeps) }

  /** What an instruction does to the other shared variables. */
  predicate ControlMatch(s: State, i: nat, instr: Instr, readFails: bool, s': State)
  {
    && s'.stateLock == (if instr.LockState? then Some(i) else if instr.UnlockState? then None else s.stateLock)
    && s'.processLock == (if instr.LockProcess? then Some(i) else if instr.UnlockProcess? then None else s.processLock)
    && s'.cleanupLock == (if instr.LockCleanup? then Some(i)
                          else if instr.Wait? || instr.UnlockCleanup? then None else s.cleanupLock)
    && (if instr.Write? then s'.writer == Some(i) && s'.status == instr.s
        else s'.writer == s.writer && s'.status == s.status)
    && s'.late == s.late + (if instr.Read? && Delivers(s, i, readFails) && s.turnoff then 1 else 0)
    && s'.readCount == s.readCount + (if instr.Read? && Delivers(s, i, readFails) then 1 else 0)
    && s'.turnoff == (s.turnoff || instr.SetTurnoff?)
  }

  lemma EffectShared(s: State, i: nat, instr: Instr, readFails: bool)
    ensures SharedMatch(s, i, instr, readFails, Effect(s, i, instr, readFails))
  {
    hide AllNull, Registered, AfterClose, Delivers;
  }

  lemma EffectControl(s: State, i: nat, instr: Instr, readFails: bool)
    ensures ControlMatch(s, i, instr, readFails, Effect(s, i, instr, readFails))
  {
    hide AllNull, Registered, AfterClose, Delivers;
  }

  /** What a step does to its call and to each shared variable. */
  lemma ExecShape(s: State, i: nat, readFails: bool)
    requires CanRun(s, i)
    ensures var (c, s') := (s.calls[i], Exec(s, i, readFails));
            var instr := Instruction(c.kind, c.pc);
            && LeadsTo(c, NextPc(s, i, readFails))
            && Base(s, i)[i] == c
            && s'.calls == Base(s, i)[i := c.(pc := NextPc(s, i, readFails))]
            && ControlMatch(s, i, instr, readFails, s')
            && (instr.Poll? && s.turnoff ==> !s'.calls[i].At(Read))
            && (instr.Read? && Delivers(s, i, readFails) ==> !s'.calls[i].At(Read))
            && (instr.LockState? ==> s.stateLock.None?) && (instr.LockProcess? ==> s.processLock.None?)
            && (instr.LockCleanup? ==> s.cleanupLock.None?)
  {
    EffectControl(s, i, Instruction(s.calls[i].kind, s.calls[i].pc), readFails);
    hide Effect;
  }

  lemma ExecShared(s: State, i: nat, readFails: bool)
    requires CanRun(s, i)
    ensures SharedMatch(s, i, Instruction(s.calls[i].kind, s.calls[i].pc), readFails, Exec(s, i, readFails))
  {
    EffectShared(s, i, Instruction(s.calls[i].kind, s.calls[i].pc), readFails);
    hide Effect, Instruction, NextPc, CanRun, Base, Delivers;
  }

  lemma BaseOwned(s: State, i: nat)
    requires LocksOwned(s) && CanRun(s, i)
    ensures Owned(s.stateLock, Base(s, i), HoldsState)
    ensures Owned(s.processLock, Base(s, i), HoldsProcess)
    ensures Owned(s.cleanupLock, Base(s, i), HoldsCleanup)
  {
    forall d: Call {
      WakeIsSilent(d);
    }
    OwnedWoken(s.stateLock, s.calls, HoldsState);
    OwnedWoken(s.processLock, s.calls, HoldsProcess);
    OwnedWoken(s.cleanupLock, s.calls, HoldsCleanup);
  }

  lemma ExecLocks(s: State, i: nat, readFails: bool)
    requires LocksOwned(s) && CanRun(s, i)
    ensures LocksOwned(Exec(s, i, readFails))
  {
    var c, s' := s.calls[i], Exec(s, i, readFails);
    var c' := c.(pc := NextPc(s, i, readFails));
    ExecShape(s, i, readFails);
    CallStep(c, c'.pc);
    BaseOwned(s, i);
    hide Owned, HoldsState, HoldsProcess, HoldsCleanup, Exec, Instruction, CanRun, NextPc, Base, LastWrite, LeadsTo;
    OwnedStep(s.stateLock, Base(s, i), HoldsState, i, c', s'.stateLock);
    OwnedStep(s.processLock, Base(s, i), HoldsProcess, i, c', s'.processLock);
    OwnedStep(s.cleanupLock, Base(s, i), HoldsCleanup, i, c', s'.cleanupLock);
  }

  lemma ExecStatus(s: State, i: nat, readFails: bool)
    requires InRange(s.calls) && StatusKept(s) && CanRun(s, i)
    ensures InRange(Exec(s, i, readFails).calls) && StatusKept(Exec(s, i, readFails))
  {
    var c := s.calls[i];
    ExecShape(s, i, readFails);
    CallStep(c, NextPc(s, i, readFails));
    forall d: Call {
      WakeIsSilent(d);
    }
    assert forall j | 0 <= j < |s.calls| :: Base(s, i)[j] == s.calls[j] || Base(s, i)[j] == Woken(s.calls[j]);
    hide Exec, Instruction, NextPc, LastWrite, Base, CanRun, LeadsTo, HoldsProcess, HoldsState, HoldsCleanup, Woken;
  }

  lemma ReaderHolds(c: Call)
    requires c.At(Read)
    ensures HoldsProcess(c)
  {
  }

  lemma ExecLate(s: State, i: nat, readFails: bool)
    requires LocksOwned(s) && LateBounded(s) && CanRun(s, i)
    ensures LateBounded(Exec(s, i, readFails))
  {
    var c, s' := s.calls[i], Exec(s, i, readFails);
    ExecShape(s, i, readFails);
    CallStep(c, NextPc(s, i, readFails));
    if Reading(s') {
      var j :| 0 <= j < |s'.calls| && s'.calls[j].At(Read);
      if j != i {
        WakeIsSilent(s.calls[j]);
        ReaderHolds(s.calls[j]);
        assert s.processLock == Some(j) && !HoldsProcess(c);
      }
    }
  }

  lemma ExecContexts(s: State, i: nat, readFails: bool)
    requires ContextsNumbered(s) && CanRun(s, i)
    ensures ContextsNumbered(Exec(s, i, readFails))
  {
    ExecShared(s, i, readFails);
  }

  /** Every action of every schedule keeps the invariant. */
  lemma ApplyKeepsInv(s: State, a: Action)
    requires Inv(s) && Apply(s, a).Some?
    ensures Inv(Apply(s, a).value)
  {
    match a
    case Start(kind) => StartKeepsInv(s, Call(kind, 0));
    case Run(i, readFails) =>
      ExecLocks(s, i, readFails);
      ExecStatus(s, i, readFails);
      ExecLate(s, i, readFails);
      ExecContexts(s, i, readFails);
    case SpuriousWake(i) => SpuriousWakeKeepsInv(s, i);
  }

  lemma StartKeepsInv(s: State, c: Call)
    requires Inv(s) && c.pc == 0
    ensures Inv(s.(calls := s.calls + [c]))
  {
    var s' := s.(calls := s.calls + [c]);
    OwnedStart(s.stateLock, s.calls, HoldsState, c);
    OwnedStart(s.processLock, s.calls, HoldsProcess, c);
    OwnedStart(s.cleanupLock, s.calls, HoldsCleanup, c);
    if Reading(s') {
      var i :| 0 <= i < |s'.calls| && s'.calls[i].At(Read);
      assert s.calls[i].At(Read);
    }
  }

  lemma SpuriousWakeKeepsInv(s: State, i: nat)
    requires Inv(s) && i < |s.calls|
    ensures Inv(s.(calls := s.calls[i := Woken(s.calls[i])]))
  {
    var c := Woken(s.calls[i]);
    var s' := s.(calls := s.calls[i := c]);
    WakeIsSilent(s.calls[i]);
    hide Woken, HoldsState, HoldsProcess, HoldsCleanup, LastWrite, Length, Instruction;
    WakeIsNoRead(s, i);
    hide Reading;
    OwnedStep(s.stateLock, s.calls, HoldsState, i, c, s.stateLock);
    OwnedStep(s.processLock, s.calls, HoldsProcess, i, c, s.processLock);
    OwnedStep(s.cleanupLock, s.calls, HoldsCleanup, i, c, s.cleanupLock);
    hide Owned;
  }

  lemma WakeIsNoRead(s: State, i: nat)
    requires i < |s.calls|
    ensures Reading(s.(calls := s.calls[i := Woken(s.calls[i])])) ==> Reading(s)
  {
    WakeIsSilent(s.calls[i]);
    hide Woken;
    var s' := s.(calls := s.calls[i := Woken(s.calls[i])]);
    if Reading(s') {
      var j :| 0 <= j < |s'.calls| && s'.calls[j].At(Read);
      assert s.calls[j].At(Read);
    }
  }

  lemma {:induction false} ScheduleKeepsInv(s: State, schedule: seq<Action>)
    requires Inv(s) && After(s, schedule).Some?
    ensures Inv(After(s, schedule).value)
    decreases |schedule|
  {
    if schedule != [] {
      ApplyKeepsInv(s, schedule[0]);
      hide Inv;
      ScheduleKeepsInv(Apply(s, schedule[0]).value, schedule[1..]);
    }
  }

  lemma ReachableInv(s: State)
    requires Reachable(s)
    ensures Inv(s)
  {
    var schedule :| After(START, schedule) == Some(s);
    ScheduleKeepsInv(START, schedule);
  }

  // ---------- what the status tells ----------

  /** The call has written its first status and not its last; a CleanUp call holds the process lock. */
  predicate InFlight(c: Call)
  {
    match c.kind
    case SetUpCall(_, _, _, _) => 2 <= c.pc < (if LateFailure(c.kind) then 9 else 8)
    case ProcessCall => 3 <= c.pc <= 11
    case CleanUpCall => HoldsProcess(c)
    case StopCall => false
  }

  /**
   The transient statuses are honest in every interleaving: Process and
   SetConfig only while such a call is in flight, Reset only while a CleanUp
   call holds the process lock.
   */
  lemma StatusIsHonest(s: State)
    requires Reachable(s)
    ensures s.status.Process? ==> exists i | 0 <= i < |s.calls| :: s.calls[i].kind.ProcessCall? && InFlight(s.calls[i])
    ensures s.status.SetConfig? ==> exists i | 0 <= i < |s.calls| :: s.calls[i].kind.SetUpCall? && InFlight(s.calls[i])
    ensures s.status.Reset? ==> exists i | 0 <= i < |s.calls| ::
              s.calls[i].kind.CleanUpCall? && InFlight(s.calls[i]) && s.processLock == Some(i)
  {
    ReachableInv(s);
    if s.status.Process? || s.status.SetConfig? || s.status.Reset? {
      var w := s.writer.value;
      var c := s.calls[w];
      assert LastWrite(c) == Some(s.status);
      assert InFlight(c);
      assert s.status.Reset? ==> HoldsProcess(c);
    }
  }

  /** StopProcess gets past its check only while some Process call is in flight. */
  lemma StopNeedsProcess(s: State, i: nat)
    requires Reachable(s) && CanRun(s, i) && s.calls[i] == Call(StopCall, 0)
    ensures Exec(s, i, false).calls[i].At(SetTurnoff) <==> s.status.Process?
    ensures Exec(s, i, false).calls[i].At(SetTurnoff) ==>
              exists j | 0 <= j < |s.calls| :: s.calls[j].kind.ProcessCall? && InFlight(s.calls[j])
  {
    StatusIsHonest(s);
  }

  // ---------- mutual exclusion ----------

  /** The instructions that touch the shared contexts and the stream map. */
  predicate Critical(instr: Instr)
  {
    || instr.Open? || instr.Register? || instr.Close? || instr.InitTools?
    || instr.Poll? || instr.Read? || instr.FlushAll? || instr.CleanAll?
  }

  predicate InBody(c: Call) { !c.Done() && Critical(Instruction(c.kind, c.pc)) }

  lemma BodyHolds(c: Call)
    requires InBody(c)
    ensures HoldsProcess(c)
  {
  }

  /** At most one set-up, Process or CleanUp body is active. */
  lemma MutualExclusion(s: State, i: nat, j: nat)
    requires Reachable(s) && i < |s.calls| && j < |s.calls| && InBody(s.calls[i]) && InBody(s.calls[j])
    ensures i == j
  {
    ReachableInv(s);
    BodyHolds(s.calls[i]);
    BodyHolds(s.calls[j]);
  }

  // ---------- no deadlock, and every schedule ends ----------

  lemma StateHolderRuns(s: State, j: nat)
    requires j < |s.calls| && HoldsState(s.calls[j])
    ensures CanRun(s, j)
  {
  }

  /** A holder of the process lock waits for nothing but the state lock. */
  lemma ProcessHolderNeeds(s: State, j: nat)
    requires j < |s.calls| && HoldsProcess(s.calls[j])
    ensures CanRun(s, j) || s.stateLock.Some?
  {
  }

  lemma CleanupHolderRuns(s: State, j: nat)
    requires j < |s.calls| && HoldsCleanup(s.calls[j])
    ensures CanRun(s, j)
  {
  }

  lemma BlockedOnLock(s: State, i: nat)
    requires i < |s.calls| && !s.calls[i].Done() && !CanRun(s, i)
    ensures s.calls[i].Asleep() || s.stateLock.Some? || s.processLock.Some? || s.cleanupLock.Some?
  {
  }

  /**
   While some call is neither done nor asleep, some call can take a step, and
   if it is a set-up, Process or CleanUp call, one of these can: they are
   never all blocked.
   */
  lemma Progress(s: State, i: nat) returns (j: nat)
    requires Inv(s) && i < |s.calls| && !s.calls[i].Done() && !s.calls[i].Asleep()
    ensures CanRun(s, j)
    ensures !s.calls[i].kind.StopCall? ==> !s.calls[j].kind.StopCall?
  {
    if CanRun(s, i) {
      return i;
    }
    BlockedOnLock(s, i);
    hide HoldsState, HoldsProcess, HoldsCleanup, CanRun, Instruction;
    if s.stateLock.Some? {
      j := s.stateLock.value;
      StateHolderRuns(s, j);
    } else if s.processLock.Some? {
      j := s.processLock.value;
      ProcessHolderNeeds(s, j);
    } else {
      j := s.cleanupLock.value;
      CleanupHolderRuns(s, j);
    }
  }

  /** The steps a call has before it, with those of the packets that it may bring in. */
  function CallWork(c: Call): (n: nat)
  {
    (if c.pc <= Length(c.kind) then Length(c.kind) - c.pc else 0)
    + (if c.kind.SetUpCall? && c.pc <= 4 then 2 * c.kind.packets else 0)
  }

  function TotalWork(calls: seq<Call>): (n: nat)
  {
    if calls == [] then 0 else CallWork(calls[0]) + TotalWork(calls[1..])
  }

  function Sum(inputs: seq<nat>): (n: nat)
  {
    if inputs == [] then 0 else inputs[0] + Sum(inputs[1..])
  }

  lemma {:induction false} SumUpdate(inputs: seq<nat>, g: nat, n: nat)
    requires g < |inputs|
    ensures Sum(inputs[g := n]) == Sum(inputs) - inputs[g] + n
    decreases |inputs|
  {
    if g == 0 {
      assert inputs[0 := n][1..] == inputs[1..];
    } else {
      assert inputs[g := n][1..] == inputs[1..][g - 1 := n];
      SumUpdate(inputs[1..], g - 1, n);
    }
  }

  lemma {:induction false} SumAppend(inputs: seq<nat>, n: nat)
    ensures Sum(inputs + [n]) == Sum(inputs) + n
    decreases |inputs|
  {
    if inputs != [] {
      assert (inputs + [n])[1..] == inputs[1..] + [n];
      SumAppend(inputs[1..], n);
    }
  }

  function Work(s: State): (n: nat) { 2 * Sum(s.inputs) + TotalWork(s.calls) }

  lemma {:induction false} TotalWorkUpdate(calls: seq<Call>, i: nat, c: Call)
    requires i < |calls|
    ensures TotalWork(calls[i := c]) == TotalWork(calls) - CallWork(calls[i]) + CallWork(c)
    decreases |calls|
  {
    if i == 0 {
      assert calls[0 := c][1..] == calls[1..];
    } else {
      assert calls[i := c][1..] == calls[1..][i - 1 := c];
      TotalWorkUpdate(calls[1..], i - 1, c);
    }
  }

  lemma {:induction false} WakingIsNoWork(calls: seq<Call>)
    ensures TotalWork(WakeAll(calls)) <= TotalWork(calls)
    decreases |calls|
  {
    if calls != [] {
      assert WakeAll(calls)[1..] == WakeAll(calls[1..]);
      WakingIsNoWork(calls[1..]);
    }
  }

  lemma StepWork(s: State, i: nat, readFails: bool)
    requires CanRun(s, i)
    ensures 2 * Sum(Exec(s, i, readFails).inputs) + CallWork(s.calls[i].(pc := NextPc(s, i, readFails)))
            < 2 * Sum(s.inputs) + CallWork(s.calls[i])
  {
    var instr := Instruction(s.calls[i].kind, s.calls[i].pc);
    if instr.Open? && instr.allocates {
      SumAppend(s.inputs, instr.packets);
    } else if instr.Read? && Delivers(s, i, readFails) {
      SumUpdate(s.inputs, s.held[i].value, s.inputs[s.held[i].value] - 1);
    }
  }

  /** Every step of a call uses up work. */
  lemma ExecWork(s: State, i: nat, readFails: bool)
    requires CanRun(s, i)
    ensures Work(Exec(s, i, readFails)) < Work(s)
  {
    ExecShape(s, i, readFails);
    StepWork(s, i, readFails);
    WakingIsNoWork(s.calls);
    TotalWorkUpdate(Base(s, i), i, s.calls[i].(pc := NextPc(s, i, readFails)));
  }

  predicate NoNewCalls(schedule: seq<Action>) { forall a | a in schedule :: !a.Start? }

  /** Every step and every spurious wake-up uses up work. */
  lemma ApplyWork(s: State, a: Action)
    requires !a.Start? && Apply(s, a).Some?
    ensures Work(Apply(s, a).value) < Work(s)
  {
    match a
    case Run(i, readFails) => ExecWork(s, i, readFails);
    case SpuriousWake(i) => TotalWorkUpdate(s.calls, i, Woken(s.calls[i]));
  }

  lemma {:induction false} StepsAreBounded(s: State, schedule: seq<Action>)
    requires NoNewCalls(schedule) && After(s, schedule).Some?
    ensures |schedule| + Work(After(s, schedule).value) <= Work(s)
    decreases |schedule|
  {
    if schedule != [] {
      ApplyWork(s, schedule[0]);
      StepsAreBounded(Apply(s, schedule[0]).value, schedule[1..]);
    }
  }

  /** No call can take a step. */
  predicate Stuck(s: State) { forall i | 0 <= i < |s.calls| :: !CanRun(s, i) }

  /**
   Without new callers every schedule ends, within a bound known in advance,
   spurious wake-ups included, and where no call can go on, every set-up,
   Process and CleanUp call has returned. Only a StopProcess call can be left,
   asleep in its wait.
   */
  lemma EveryScheduleEnds(s: State, schedule: seq<Action>)
    requires Reachable(s) && NoNewCalls(schedule) && After(s, schedule).Some?
    ensures |schedule| <= Work(s)
    ensures var s' := After(s, schedule).value;
            Stuck(s') ==> forall i | 0 <= i < |s'.calls| :: s'.calls[i].Done() || s'.calls[i].Asleep()
  {
    StepsAreBounded(s, schedule);
    ReachableInv(s);
    ScheduleKeepsInv(s, schedule);
    var s' := After(s, schedule).value;
    if i: nat :| i < |s'.calls| && !s'.calls[i].Done() && !s'.calls[i].Asleep() {
      var j := Progress(s', i);
    }
  }

  // ---------- when StopProcess returns ----------

  predicate OnlySteps(schedule: seq<Action>) { forall a | a in schedule :: a.Run? }

  /** A CleanUp call that has not notified yet. */
  predicate WillNotify(c: Call) { c.kind.CleanUpCall? && c.pc <= 8 }

  /** A sleeper stays asleep in a step if no call is going to notify, and then no call will be. */
  lemma StepKeepsAsleep(s: State, i: nat, a: Action)
    requires a.Run? && Apply(s, a).Some? && i < |s.calls| && s.calls[i].Asleep()
    requires forall j | 0 <= j < |s.calls| :: !WillNotify(s.calls[j])
    ensures var s' := Apply(s, a).value;
            && |s'.calls| == |s.calls| && s'.calls[i].Asleep()
            && forall j | 0 <= j < |s'.calls| :: !WillNotify(s'.calls[j])
  {
    ExecShape(s, a.i, a.readFails);
  }

  lemma {:induction false} NobodyWakes(s: State, i: nat, schedule: seq<Action>)
    requires OnlySteps(schedule) && After(s, schedule).Some? && i < |s.calls| && s.calls[i].Asleep()
    requires forall j | 0 <= j < |s.calls| :: !WillNotify(s.calls[j])
    ensures |After(s, schedule).value.calls| == |s.calls| && After(s, schedule).value.calls[i].Asleep()
    decreases |schedule|
  {
    if schedule != [] {
      StepKeepsAsleep(s, i, schedule[0]);
      NobodyWakes(Apply(s, schedule[0]).value, i, schedule[1..]);
    }
  }

  /** Call `i` waits or is past its wait, and CleanUp call `j` is the reason if it still waits. */
  predicate WaitsFor(s: State, i: nat, j: nat)
  {
    && i < |s.calls| && j < |s.calls|
    && s.calls[i].kind.StopCall? && s.calls[i].pc >= 4 && s.calls[j].kind.CleanUpCall?
    && (s.calls[i].Asleep() ==> WillNotify(s.calls[j]))
  }

  lemma StepWaitsFor(s: State, i: nat, j: nat, a: Action)
    requires a.Run? && Apply(s, a).Some? && WaitsFor(s, i, j)
    ensures WaitsFor(Apply(s, a).value, i, j)
  {
    ExecShape(s, a.i, a.readFails);
  }

  lemma {:induction false} StillWaitsFor(s: State, i: nat, j: nat, schedule: seq<Action>)
    requires OnlySteps(schedule) && After(s, schedule).Some? && WaitsFor(s, i, j)
    ensures WaitsFor(After(s, schedule).value, i, j)
    decreases |schedule|
  {
    if schedule != [] {
      StepWaitsFor(s, i, j, schedule[0]);
      StillWaitsFor(Apply(s, schedule[0]).value, i, j, schedule[1..]);
    }
  }

  /**
   A StopProcess call that sleeps returns, when all calls have gone as far as
   they can, exactly if some CleanUp call had not notified yet when it slept.
   */
  lemma StopReturnsExactly(s: State, i: nat, schedule: seq<Action>)
    requires Reachable(s) && i < |s.calls| && s.calls[i].Asleep()
    requires OnlySteps(schedule) && After(s, schedule).Some? && Stuck(After(s, schedule).value)
    ensures i < |After(s, schedule).value.calls|
    ensures After(s, schedule).value.calls[i].Done() <==> exists j | 0 <= j < |s.calls| :: WillNotify(s.calls[j])
  {
    if j :| 0 <= j < |s.calls| && WillNotify(s.calls[j]) {
      StillWaitsFor(s, i, j, schedule);
      EveryScheduleEnds(s, schedule);
      assert !WillNotify(After(s, schedule).value.calls[j]);
    } else {
      NobodyWakes(s, i, schedule);
    }
  }

  // ---------- what the last of several steps decides ----------

  predicate Steps(s: State, a: Action) { a.Run? && CanRun(s, a.i) }

  function NextInstr(s: State, a: Action): (instr: Instr)
    requires Steps(s, a)
  {
    Instruction(s.calls[a.i].kind, s.calls[a.i].pc)
  }

  predicate Takes(s: State, a: Action, instr: Instr) { Steps(s, a) && NextInstr(s, a) == instr }

  /** Action `k` of the schedule is one that `f` describes. */
  predicate Does(f: (State, Action) -> bool, schedule: seq<Action>, k: nat)
    requires k < |schedule|
  {
    After(START, schedule[..k]).Some? && f(After(START, schedule[..k]).value, schedule[k])
  }

  predicate NoneAfter(clears: (State, Action) -> bool, schedule: seq<Action>, k: nat)
  {
    forall j | k < j < |schedule| :: !Does(clears, schedule, j)
  }

  /** Action `k` of the schedule sets, and no later one clears. */
  predicate SetForGood(sets: (State, Action) -> bool, clears: (State, Action) -> bool, schedule: seq<Action>, k: nat)
    requires k < |schedule|
  {
    Does(sets, schedule, k) && NoneAfter(clears, schedule, k)
  }

  /** `p` does not hold at the start, and each action sets it, clears it or leaves it. */
  ghost predicate Obeys(p: State -> bool, sets: (State, Action) -> bool, clears: (State, Action) -> bool)
  {
    && !p(START)
    && forall s, a | Apply(s, a).Some? :: p(Apply(s, a).value) <==> sets(s, a) || (p(s) && !clears(s, a))
  }

  lemma DoesInPrefix(f: (State, Action) -> bool, schedule: seq<Action>, n: nat, k: nat)
    requires k < n <= |schedule|
    ensures Does(f, schedule[..n], k) <==> Does(f, schedule, k)
  {
    assert schedule[..n][..k] == schedule[..k];
  }

  lemma NoneAfterLast(clears: (State, Action) -> bool, schedule: seq<Action>, k: nat)
    requires k < |schedule| - 1
    ensures NoneAfter(clears, schedule, k) <==>
              NoneAfter(clears, schedule[..|schedule| - 1], k) && !Does(clears, schedule, |schedule| - 1)
  {
    var n := |schedule| - 1;
    forall j | 0 <= j < n
      ensures Does(clears, schedule[..n], j) <==> Does(clears, schedule, j)
    {
      DoesInPrefix(clears, schedule, n, j);
    }
    hide Does;
  }

  lemma LastDoes(f: (State, Action) -> bool, schedule: seq<Action>)
    requires schedule != [] && After(START, schedule[..|schedule| - 1]).Some?
    ensures Does(f, schedule, |schedule| - 1) <==>
              f(After(START, schedule[..|schedule| - 1]).value, schedule[|schedule| - 1])
  {
  }

  /** After any schedule, `p` holds exactly when some action has set it and no later one has cleared it. */
  lemma {:induction false} LastSetExactly(p: State -> bool, sets: (State, Action) -> bool,
                                          clears: (State, Action) -> bool, schedule: seq<Action>)
    requires Obeys(p, sets, clears) && After(START, schedule).Some?
    ensures p(After(START, schedule).value) <==>
              exists k | 0 <= k < |schedule| :: SetForGood(sets, clears, schedule, k)
    decreases |schedule|
  {
    if schedule != [] {
      var n := |schedule| - 1;
      AfterLast(START, schedule);
      LastSetExactly(p, sets, clears, schedule[..n]);
      forall k | 0 <= k < n
        ensures SetForGood(sets, clears, schedule, k) <==>
                  SetForGood(sets, clears, schedule[..n], k) && !Does(clears, schedule, n)
      {
        DoesInPrefix(sets, schedule, n, k);
        NoneAfterLast(clears, schedule, k);
      }
      var s := After(START, schedule[..n]).value;
      LastDoes(sets, schedule);
      LastDoes(clears, schedule);
      assert NoneAfter(clears, schedule, n);
      assert SetForGood(sets, clears, schedule, n) <==> sets(s, schedule[n]);
      assert p(Apply(s, schedule[n]).value) <==> sets(s, schedule[n]) || (p(s) && !clears(s, schedule[n]));
      hide After, Does, NoneAfter, SetForGood, Apply;
    }
  }

  lemma {:induction false} AfterLast(s: State, schedule: seq<Action>)
    requires schedule != [] && After(s, schedule).Some?
    ensures After(s, schedule[..|schedule| - 1]).Some?
    ensures After(s, schedule) == Apply(After(s, schedule[..|schedule| - 1]).value, schedule[|schedule| - 1])
    decreases |schedule|
  {
    if |schedule| > 1 {
      AfterLast(Apply(s, schedule[0]).value, schedule[1..]);
      assert schedule[1..][..|schedule| - 2] == schedule[..|schedule| - 1][1..];
    }
  }

  // ---------- reset entries ----------

  predicate HasNull(entries: map<nat, Slot>) { exists k :: k in entries && entries[k].Null? }

  /** The action cleans the streams of a map that is not empty. */
  predicate Resets(s: State, a: Action) { Takes(s, a, CleanAll) && s.entries != map[] }

  predicate Empties(s: State, a: Action) { Takes(s, a, Close) }

  lemma ApplyEntries(s: State, a: Action)
    requires Apply(s, a).Some?
    ensures HasNull(Apply(s, a).value.entries) <==> Resets(s, a) || (HasNull(s.entries) && !Empties(s, a))
  {
    if a.Run? {
      ExecShared(s, a.i, a.readFails);
      var entries' := Apply(s, a).value.entries;
      if Resets(s, a) {
        var k :| k in s.entries;
        assert k in entries' && entries'[k].Null?;
      } else if HasNull(s.entries) && !Empties(s, a) {
        var k :| k in s.entries && s.entries[k].Null?;
        assert k in entries' && entries'[k].Null?;
      }
    }
  }

  /**
   The stream map holds a null pointer exactly when some Process call has
   cleaned a map that was not empty and no CleanUp call has emptied it since,
   whatever was set up in between.
   */
  lemma NullEntriesExactly(schedule: seq<Action>)
    requires After(START, schedule).Some?
    ensures HasNull(After(START, schedule).value.entries) <==>
              exists k | 0 <= k < |schedule| :: SetForGood(Resets, Empties, schedule, k)
  {
    var p: State -> bool := (s: State) => HasNull(s.entries);
    forall s, a | Apply(s, a).Some?
      ensures p(Apply(s, a).value) <==> Resets(s, a) || (p(s) && !Empties(s, a))
    {
      ApplyEntries(s, a);
    }
    hide Apply, Resets, Empties, After, HasNull;
    assert !p(START) by { NoEntries(); }
    LastSetExactly(p, Resets, Empties, schedule);
  }

  lemma NoEntries()
    ensures !HasNull(START.entries)
  {
  }

  /** The action is a set-up's registration of stream `k`. */
  function Registers(k: nat): (f: (State, Action) -> bool)
  {
    (s, a) => Steps(s, a) && NextInstr(s, a).Register? && NextInstr(s, a).keeps && k in NextInstr(s, a).streams
  }

  function HasEntry(k: nat): (p: State -> bool) { (s: State) => k in s.entries }

  lemma ApplyEntry(s: State, a: Action, k: nat)
    requires Apply(s, a).Some?
    ensures k in Apply(s, a).value.entries <==> Registers(k)(s, a) || (k in s.entries && !Empties(s, a))
  {
    if a.Run? {
      ExecShared(s, a.i, a.readFails);
    }
  }

  /**
   The map has an entry for a stream exactly when some set-up whose input
   opened has registered it and no CleanUp call has emptied the map since.
   */
  lemma EntriesExactly(schedule: seq<Action>, k: nat)
    requires After(START, schedule).Some?
    ensures k in After(START, schedule).value.entries <==>
              exists j | 0 <= j < |schedule| :: SetForGood(Registers(k), Empties, schedule, j)
  {
    forall s, a | Apply(s, a).Some?
      ensures HasEntry(k)(Apply(s, a).value) <==> Registers(k)(s, a) || (HasEntry(k)(s) && !Empties(s, a))
    {
      ApplyEntry(s, a, k);
    }
    hide Apply, Registers, Empties, After;
    LastSetExactly(HasEntry(k), Registers(k), Empties, schedule);
  }

  // ---------- the input context ----------

  predicate OpensContext(s: State, a: Action)
  {
    Steps(s, a) && NextInstr(s, a).Open? && NextInstr(s, a).allocates
  }

  predicate LosesContext(s: State, a: Action)
  {
    Steps(s, a) && (EndsContext(NextInstr(s, a)) || (NextInstr(s, a).Open? && !NextInstr(s, a).allocates))
  }

  lemma ApplyContext(s: State, a: Action)
    requires Apply(s, a).Some?
    ensures Apply(s, a).value.context.Some? <==> OpensContext(s, a) || (s.context.Some? && !LosesContext(s, a))
  {
    if a.Run? {
      ExecShared(s, a.i, a.readFails);
    }
  }

  /**
   The shared pointer holds a context exactly when some set-up has allocated
   one and since then no CleanUp call and no failing set-up has closed it or
   lost it. A SetConfig call that opens its input then hands over a context
   that is open already.
   */
  lemma ContextExactly(schedule: seq<Action>)
    requires After(START, schedule).Some?
    ensures After(START, schedule).value.context.Some? <==>
              exists k | 0 <= k < |schedule| :: SetForGood(OpensContext, LosesContext, schedule, k)
  {
    var p: State -> bool := (s: State) => s.context.Some?;
    forall s, a | Apply(s, a).Some?
      ensures p(Apply(s, a).value) <==> OpensContext(s, a) || (p(s) && !LosesContext(s, a))
    {
      ApplyContext(s, a);
    }
    hide Apply, OpensContext, LosesContext, After;
    LastSetExactly(p, OpensContext, LosesContext, schedule);
  }

  /** The actions that close context `g`. */
  function ClosesContext(g: nat): (f: (State, Action) -> bool)
  {
    (s, a) => Steps(s, a) && EndsContext(NextInstr(s, a)) && s.context == Some(g)
  }

  function Never(): (f: (State, Action) -> bool) { (s, a) => false }

  lemma ApplyClosed(s: State, a: Action, g: nat)
    requires Apply(s, a).Some?
    ensures g in Apply(s, a).value.closed <==> ClosesContext(g)(s, a) || g in s.closed
  {
    if a.Run? {
      ExecShared(s, a.i, a.readFails);
    }
  }

  function IsClosed(g: nat): (p: State -> bool) { (s: State) => g in s.closed }

  lemma ObeysClosed(g: nat)
    ensures Obeys(IsClosed(g), ClosesContext(g), Never())
  {
    forall s, a | Apply(s, a).Some?
      ensures IsClosed(g)(Apply(s, a).value) <==> ClosesContext(g)(s, a) || (IsClosed(g)(s) && !Never()(s, a))
    {
      ApplyClosed(s, a, g);
    }
    hide Apply;
  }

  lemma NothingClears(f: (State, Action) -> bool, schedule: seq<Action>, k: nat)
    requires k < |schedule|
    ensures SetForGood(f, Never(), schedule, k) <==> Does(f, schedule, k)
  {
    hide After;
  }

  /** A context is closed exactly when some action has closed it. */
  lemma ClosedExactly(schedule: seq<Action>, g: nat)
    requires After(START, schedule).Some?
    ensures g in After(START, schedule).value.closed <==>
              exists k | 0 <= k < |schedule| :: Does(ClosesContext(g), schedule, k)
  {
    ObeysClosed(g);
    hide Obeys, ClosesContext, Never, SetForGood, Does, After;
    LastSetExactly(IsClosed(g), ClosesContext(g), Never(), schedule);
    forall k | 0 <= k < |schedule|
      ensures SetForGood(ClosesContext(g), Never(), schedule, k) <==> Does(ClosesContext(g), schedule, k)
    {
      NothingClears(ClosesContext(g), schedule, k);
    }
  }

  /** The Process call has read the shared pointer. */
  predicate Captured(s: State, i: nat)
  {
    i < |s.calls| && s.calls[i].kind.ProcessCall? && s.calls[i].pc >= 1 && i in s.held
  }

  /** What a read of call `i` would use is a null pointer or a context that was closed. */
  predicate BadContext(s: State, i: nat)
  {
    i in s.held && (s.held[i].None? || s.held[i].value in s.closed)
  }

  lemma CapturedStep(s: State, a: Action, i: nat)
    requires Captured(s, i) && Apply(s, a).Some?
    ensures Captured(Apply(s, a).value, i) && Apply(s, a).value.held[i] == s.held[i]
  {
    if a.Run? {
      ExecShape(s, a.i, a.readFails);
      ExecShared(s, a.i, a.readFails);
    }
  }

  lemma {:induction false} CapturedStays(s: State, schedule: seq<Action>, i: nat)
    requires Captured(s, i) && After(s, schedule).Some?
    ensures Captured(After(s, schedule).value, i) && After(s, schedule).value.held[i] == s.held[i]
    decreases |schedule|
  {
    if schedule != [] {
      CapturedStep(s, schedule[0], i);
      CapturedStays(Apply(s, schedule[0]).value, schedule[1..], i);
    }
  }

  function Captures(i: nat): (f: (State, Action) -> bool)
  {
    (s, a) => Takes(s, a, Capture) && a.i == i
  }

  lemma CaptureStep(s: State, a: Action, i: nat)
    requires Captures(i)(s, a)
    ensures Apply(s, a).Some? && Captured(Apply(s, a).value, i) && Apply(s, a).value.held[i] == s.context
  {
    CaptureIsFirst(s.calls[i]);
    ExecShape(s, i, a.readFails);
    ExecShared(s, i, a.readFails);
  }

  lemma CaptureIsFirst(c: Call)
    requires !c.Done()
    ensures Instruction(c.kind, c.pc).Capture? <==> c.kind.ProcessCall? && c.pc == 0
  {
  }

  /** A Process call past its first instruction has captured at some place of the schedule. */
  lemma {:induction false} CaptureIsThere(schedule: seq<Action>, i: nat)
    requires After(START, schedule).Some? && i < |After(START, schedule).value.calls|
    requires var c := After(START, schedule).value.calls[i]; c.kind.ProcessCall? && c.pc >= 1
    ensures exists k | 0 <= k < |schedule| :: Does(Captures(i), schedule, k)
    decreases |schedule|
  {
    if schedule != [] {
      var n := |schedule| - 1;
      AfterLast(START, schedule);
      var s := After(START, schedule[..n]).value;
      FirstStepCaptures(s, schedule[n], i);
      if !Captures(i)(s, schedule[n]) {
        CaptureIsThere(schedule[..n], i);
        var k :| 0 <= k < n && Does(Captures(i), schedule[..n], k);
        DoesInPrefix(Captures(i), schedule, n, k);
        assert Does(Captures(i), schedule, k);
      } else {
        LastDoes(Captures(i), schedule);
        assert Does(Captures(i), schedule, n);
      }
    }
  }

  lemma FirstStepCaptures(s: State, a: Action, i: nat)
    requires Apply(s, a).Some? && i < |Apply(s, a).value.calls|
    requires var c := Apply(s, a).value.calls[i]; c.kind.ProcessCall? && c.pc >= 1
    ensures Captures(i)(s, a) || (i < |s.calls| && s.calls[i].kind.ProcessCall? && s.calls[i].pc >= 1)
  {
    if a.Run? {
      ExecShape(s, a.i, a.readFails);
      CaptureIsFirst(s.calls[a.i]);
    }
  }

  /** A schedule can be taken up to any place of it and on from there. */
  lemma {:induction false} SplitAt(s: State, schedule: seq<Action>, n: nat)
    requires n <= |schedule| && After(s, schedule).Some?
    ensures After(s, schedule[..n]).Some?
    ensures After(s, schedule) == After(After(s, schedule[..n]).value, schedule[n..])
    decreases n
  {
    if n > 0 {
      SplitAt(Apply(s, schedule[0]).value, schedule[1..], n - 1);
      assert schedule[1..][..n - 1] == schedule[..n][1..];
      assert schedule[1..][n - 1..] == schedule[n..];
    }
  }

  lemma HeldIsCaptured(schedule: seq<Action>, k: nat, i: nat)
    requires After(START, schedule).Some? && k < |schedule| && Does(Captures(i), schedule, k)
    ensures Captured(After(START, schedule).value, i)
    ensures After(START, schedule).value.held[i] == After(START, schedule[..k]).value.context
  {
    SplitAt(START, schedule, k);
    var s := After(START, schedule[..k]).value;
    assert schedule[k..][0] == schedule[k];
    CaptureStep(s, schedule[k], i);
    assert After(s, schedule[k..]) == After(Apply(s, schedule[k]).value, schedule[k..][1..]);
    CapturedStays(Apply(s, schedule[k]).value, schedule[k..][1..], i);
  }

  /** Call `i` captures at place `k` a null pointer, or a context that is closed after that. */
  predicate BadCapture(schedule: seq<Action>, k: nat, i: nat)
    requires k < |schedule|
  {
    && Does(Captures(i), schedule, k)
    && var g := After(START, schedule[..k]).value.context;
       g.None? || exists j | k < j < |schedule| :: Does(ClosesContext(g.value), schedule, j)
  }

  /** A context that the pointer holds at some place is not closed up to there. */
  lemma ClosedLater(schedule: seq<Action>, k: nat, i: nat, j: nat)
    requires After(START, schedule).Some? && k < |schedule| && j < |schedule| && Does(Captures(i), schedule, k)
    requires After(START, schedule[..k]).value.context.Some?
    requires Does(ClosesContext(After(START, schedule[..k]).value.context.value), schedule, j)
    ensures k < j
  {
    var s := After(START, schedule[..k]).value;
    var g := s.context.value;
    assert Reachable(s);
    ReachableInv(s);
    ClosedExactly(schedule[..k], g);
    if j < k {
      DoesInPrefix(ClosesContext(g), schedule, k, j);
    }
  }

  /**
   After any schedule, a Process call has in its hands a null pointer or a
   closed context exactly when it read the shared pointer while that was null
   or before the context it held was closed. Every read of the call uses it.
   */
  lemma BadContextExactly(schedule: seq<Action>, i: nat)
    requires After(START, schedule).Some? && i < |After(START, schedule).value.calls|
    requires var c := After(START, schedule).value.calls[i]; c.kind.ProcessCall? && c.pc >= 1
    ensures BadContext(After(START, schedule).value, i) <==>
              exists k | 0 <= k < |schedule| :: BadCapture(schedule, k, i)
  {
    CaptureIsThere(schedule, i);
    var c :| 0 <= c < |schedule| && Does(Captures(i), schedule, c);
    forall k | 0 <= k < |schedule| && Does(Captures(i), schedule, k)
      ensures BadContext(After(START, schedule).value, i) <==> BadCapture(schedule, k, i)
    {
      BadContextIs(schedule, k, i);
    }
    assert forall k | 0 <= k < |schedule| :: BadCapture(schedule, k, i) ==> Does(Captures(i), schedule, k);
  }

  lemma BadContextIs(schedule: seq<Action>, k: nat, i: nat)
    requires After(START, schedule).Some? && k < |schedule| && Does(Captures(i), schedule, k)
    ensures BadContext(After(START, schedule).value, i) <==> BadCapture(schedule, k, i)
  {
    HeldIsCaptured(schedule, k, i);
    var g := After(START, schedule[..k]).value.context;
    if g.Some? {
      ClosedExactly(schedule, g.value);
      forall j | 0 <= j < |schedule| && Does(ClosesContext(g.value), schedule, j)
        ensures k < j
      {
        ClosedLater(schedule, k, i, j);
      }
    }
    hide Does, After;
  }

  // ---------- the body of Process ----------

  /** From its first use of the stream map to its last. */
  predicate InProcessBody(c: Call) { c.kind.ProcessCall? && 5 <= c.pc <= 9 }

  /** What the body of Process call `i` depends on. */
  predicate SameForBody(s: State, s': State, i: nat)
  {
    && s'.entries == s.entries && s'.closed == s.closed && s'.context == s.context
    && i in s.held && i in s'.held && s'.held[i] == s.held[i]
  }

  /** Instructions that change the stream map or the contexts. */
  predicate Changes(instr: Instr) { instr.Open? || instr.Register? || instr.Close? || instr.CleanAll? }

  lemma ChangesHolds(c: Call)
    requires !c.Done() && Changes(Instruction(c.kind, c.pc))
    ensures HoldsProcess(c)
  {
  }

  /** While call `i` holds the process lock, no other call changes what its body depends on. */
  lemma OthersDoNotChange(s: State, a: Action, i: nat)
    requires Inv(s) && Steps(s, a) && a.i != i && i < |s.calls| && HoldsProcess(s.calls[i])
    ensures !Changes(NextInstr(s, a))
  {
    if Changes(NextInstr(s, a)) {
      ChangesHolds(s.calls[a.i]);
    }
  }

  /** The call goes on in its body or leaves it by cleaning the streams, for good. */
  lemma BodyGoesOn(s: State, a: Action, i: nat)
    requires Apply(s, a).Some? && Captured(s, i) && s.calls[i].pc >= 5
    ensures var s' := Apply(s, a).value;
            && Captured(s', i) && s'.calls[i].pc >= 5
            && (s.calls[i].pc >= 10 ==> s'.calls[i].pc >= 10)
            && (s'.calls[i].pc <= 9 && Steps(s, a) && a.i == i ==> !Changes(NextInstr(s, a)))
  {
    CapturedStep(s, a, i);
    if a.Run? {
      ExecShape(s, a.i, a.readFails);
      hide Exec, Effect;
    }
  }

  lemma BodySame(s: State, a: Action, i: nat)
    requires Apply(s, a).Some? && Captured(s, i) && Captured(Apply(s, a).value, i)
    requires Steps(s, a) ==> !Changes(NextInstr(s, a))
    ensures SameForBody(s, Apply(s, a).value, i)
  {
    CapturedStep(s, a, i);
    if a.Run? {
      ExecShared(s, a.i, a.readFails);
      hide Exec, Effect, Instruction;
    }
  }

  lemma BodyStep(s: State, a: Action, i: nat)
    requires Inv(s) && Apply(s, a).Some? && Captured(s, i) && s.calls[i].pc >= 5
    ensures var s' := Apply(s, a).value;
            && Captured(s', i) && s'.calls[i].pc >= 5
            && (s.calls[i].pc >= 10 ==> s'.calls[i].pc >= 10)
            && (s'.calls[i].pc <= 9 ==> SameForBody(s, s', i))
  {
    BodyGoesOn(s, a, i);
    hide Inv, Apply, Changes, SameForBody;
    if Apply(s, a).value.calls[i].pc <= 9 {
      if Steps(s, a) && a.i != i {
        OthersDoNotChange(s, a, i);
      }
      BodySame(s, a, i);
    }
  }

  /** No other call disturbs the body: from one point of it to any later one nothing that it depends on changes. */
  lemma {:induction false} BodyIsUndisturbed(s: State, schedule: seq<Action>, i: nat)
    requires Inv(s) && After(s, schedule).Some? && Captured(s, i) && s.calls[i].pc >= 5
    ensures var s' := After(s, schedule).value;
            && Captured(s', i) && s'.calls[i].pc >= 5
            && (s.calls[i].pc >= 10 ==> s'.calls[i].pc >= 10)
            && (s'.calls[i].pc <= 9 ==> SameForBody(s, s', i))
    decreases |schedule|
  {
    if schedule != [] {
      BodyStep(s, schedule[0], i);
      ApplyKeepsInv(s, schedule[0]);
      hide Inv;
      BodyIsUndisturbed(Apply(s, schedule[0]).value, schedule[1..], i);
    }
  }

  lemma ProcessHasCaptured(schedule: seq<Action>, i: nat)
    requires After(START, schedule).Some? && i < |After(START, schedule).value.calls|
    requires var c := After(START, schedule).value.calls[i]; c.kind.ProcessCall? && c.pc >= 1
    ensures Captured(After(START, schedule).value, i)
  {
    CaptureIsThere(schedule, i);
    var k :| 0 <= k < |schedule| && Does(Captures(i), schedule, k);
    HeldIsCaptured(schedule, k, i);
  }

  /**
   At every step of its body, from the initialisation of the streams to their
   cleaning, a Process call meets a null stream entry exactly if some entry was
   reset for good when the body began, and a bad context exactly if it had
   captured one by then.
   */
  lemma ProcessBodyExactly(schedule: seq<Action>, body: seq<Action>, i: nat)
    requires After(START, schedule).Some? && i < |After(START, schedule).value.calls|
    requires After(START, schedule).value.calls[i].At(InitTools)
    requires After(After(START, schedule).value, body).Some?
    ensures var s' := After(After(START, schedule).value, body).value;
            i < |s'.calls| && (InProcessBody(s'.calls[i]) ==>
              && (HasNull(s'.entries) <==>
                    exists k | 0 <= k < |schedule| :: SetForGood(Resets, Empties, schedule, k))
              && (BadContext(s', i) <==> exists k | 0 <= k < |schedule| :: BadCapture(schedule, k, i)))
  {
    var s := After(START, schedule).value;
    InitToolsIsInProcess(s.calls[i]);
    NullEntriesExactly(schedule);
    BadContextExactly(schedule, i);
    ProcessHasCaptured(schedule, i);
    assert Reachable(s);
    ReachableInv(s);
    BodyIsUndisturbed(s, body, i);
    hide After, HasNull, BadCapture, SetForGood;
  }

  lemma InitToolsIsInProcess(c: Call)
    requires c.At(InitTools)
    ensures c.kind.ProcessCall? && c.pc == 5
  {
  }

  // ---------- how much a Process call reads ----------

  /** In this schedule call `i` never polls a stop flag that is set, and none of its reads fails. */
  predicate Unhindered(s: State, schedule: seq<Action>, i: nat)
    decreases |schedule|
  {
    schedule == [] ||
    var a := schedule[0];
    && (a.Run? && a.i == i && i < |s.calls| ==> !a.readFails && (s.calls[i].At(Poll) ==> !s.turnoff))
    && (Apply(s, a).Some? ==> Unhindered(Apply(s, a).value, schedule[1..], i))
  }

  /** Call `i` is in its packet loop or before it, and holds an open context in which `n` packets are left. */
  predicate CanReadAll(s: State, i: nat, g: nat, n: nat)
  {
    && Captured(s, i) && 5 <= s.calls[i].pc <= 7
    && s.held[i] == Some(g) && g !in s.closed && g < |s.inputs| && s.inputs[g] == n
  }

  /** The loop is over: nothing is left of the context. */
  predicate HasReadAll(s: State, i: nat, g: nat)
  {
    Captured(s, i) && s.calls[i].At(FlushAll) && g < |s.inputs| && s.inputs[g] == 0
  }

  /** A step of another call reads nothing and leaves the contexts of the packet loop alone. */
  lemma OthersDoNotRead(s: State, a: Action, i: nat)
    requires Inv(s) && Apply(s, a).Some? && Captured(s, i) && 5 <= s.calls[i].pc <= 8 && !(a.Run? && a.i == i)
    ensures var s' := Apply(s, a).value;
            && Captured(s', i) && s'.held[i] == s.held[i] && s'.calls[i] == s.calls[i]
            && s'.closed == s.closed && s'.inputs == s.inputs && s'.readCount == s.readCount
  {
    CapturedStep(s, a, i);
    if a.Run? {
      OthersDoNotChange(s, a, i);
      if NextInstr(s, a).Read? {
        ReaderHolds(s.calls[a.i]);
      }
      ExecShape(s, a.i, a.readFails);
      ExecShared(s, a.i, a.readFails);
      hide Exec, Effect, LocksOwned, HoldsState, HoldsCleanup, StatusKept, LateBounded, ContextsNumbered, LastWrite;
    }
  }

  /** A step of the call itself towards or in its loop: it reads one packet, or goes on, or nothing is left. */
  lemma LoopStep(s: State, a: Action, i: nat, g: nat, n: nat)
    requires CanReadAll(s, i, g, n) && Steps(s, a) && a.i == i && !a.readFails
    requires s.calls[i].At(Poll) ==> !s.turnoff
    ensures var s' := Apply(s, a).value;
            || (CanReadAll(s', i, g, n) && s'.readCount == s.readCount)
            || (n > 0 && CanReadAll(s', i, g, n - 1) && s'.readCount == s.readCount + 1)
            || (n == 0 && HasReadAll(s', i, g) && s'.readCount == s.readCount)
  {
    CapturedStep(s, a, i);
    ExecShape(s, i, a.readFails);
    ExecShared(s, i, a.readFails);
    hide Exec, Effect;
  }

  /** Past its flush the call does not come back to it. */
  lemma {:induction false} FlushedForGood(s: State, schedule: seq<Action>, i: nat)
    requires After(s, schedule).Some? && Captured(s, i) && s.calls[i].pc >= 9
    ensures Captured(After(s, schedule).value, i) && After(s, schedule).value.calls[i].pc >= 9
    decreases |schedule|
  {
    if schedule != [] {
      PastFlush(s, schedule[0], i);
      FlushedForGood(Apply(s, schedule[0]).value, schedule[1..], i);
    }
  }

  lemma PastFlush(s: State, a: Action, i: nat)
    requires Apply(s, a).Some? && Captured(s, i) && s.calls[i].pc >= 8
    ensures Captured(Apply(s, a).value, i) && Apply(s, a).value.calls[i].pc >= 8
    ensures s.calls[i].pc >= 9 || (a.Run? && a.i == i) ==> Apply(s, a).value.calls[i].pc >= 9
  {
    CapturedStep(s, a, i);
    if a.Run? {
      ExecShape(s, a.i, a.readFails);
      hide Exec, Effect;
    }
  }

  lemma {:induction false} ReadAllStays(s: State, schedule: seq<Action>, i: nat, g: nat)
    requires Inv(s) && After(s, schedule).Some? && HasReadAll(s, i, g)
    requires i < |After(s, schedule).value.calls| && After(s, schedule).value.calls[i].At(FlushAll)
    ensures var s' := After(s, schedule).value;
            HasReadAll(s', i, g) && s'.readCount == s.readCount
    decreases |schedule|
  {
    if schedule != [] {
      var a := schedule[0];
      var s1 := Apply(s, a).value;
      PastFlush(s, a, i);
      if a.Run? && a.i == i {
        FlushedForGood(s1, schedule[1..], i);
      } else {
        OthersDoNotRead(s, a, i);
        ApplyKeepsInv(s, a);
        ReadAllStays(s1, schedule[1..], i, g);
      }
    }
  }

  /**
   A Process call that comes from the initialisation of the streams to their
   flush, with an open context in its hands, without a stop and without a read
   that fails, reads every packet of that context, whatever other calls do.
   */
  lemma {:induction false} EveryPacketIsRead(s: State, schedule: seq<Action>, i: nat, g: nat, n: nat)
    requires Inv(s) && CanReadAll(s, i, g, n)
    requires After(s, schedule).Some? && Unhindered(s, schedule, i)
    requires i < |After(s, schedule).value.calls| && After(s, schedule).value.calls[i].At(FlushAll)
    ensures var s' := After(s, schedule).value;
            && s'.readCount == s.readCount + n
            && g < |s'.inputs| && s'.inputs[g] == 0
    decreases |schedule|
  {
    LoopIsNotFlush(s, i, g, n);
    if schedule != [] {
      var a := schedule[0];
      var s1 := Apply(s, a).value;
      ApplyKeepsInv(s, a);
      if a.Run? && a.i == i {
        LoopStep(s, a, i, g, n);
        hide Inv, CanReadAll, HasReadAll, Apply;
        if HasReadAll(s1, i, g) {
          ReadAllStays(s1, schedule[1..], i, g);
          ReadAllIs(After(s, schedule).value, i, g);
        } else if CanReadAll(s1, i, g, n) && s1.readCount == s.readCount {
          EveryPacketIsRead(s1, schedule[1..], i, g, n);
        } else {
          EveryPacketIsRead(s1, schedule[1..], i, g, n - 1);
        }
      } else {
        OthersDoNotRead(s, a, i);
        hide Inv, Apply;
        EveryPacketIsRead(s1, schedule[1..], i, g, n);
      }
    }
  }

  lemma LoopIsNotFlush(s: State, i: nat, g: nat, n: nat)
    requires CanReadAll(s, i, g, n)
    ensures !s.calls[i].At(FlushAll)
  {
  }

  lemma ReadAllIs(s: State, i: nat, g: nat)
    requires HasReadAll(s, i, g)
    ensures g < |s.inputs| && s.inputs[g] == 0
  {
  }

  // ---------- the stop flag ----------

  predicate Stops(s: State, a: Action) { Takes(s, a, SetTurnoff) }

  lemma ApplyTurnoff(s: State, a: Action)
    requires Apply(s, a).Some?
    ensures Apply(s, a).value.turnoff <==> Stops(s, a) || (s.turnoff && !Never()(s, a))
  {
    if a.Run? {
      ExecShape(s, a.i, a.readFails);
    }
  }

  /** The stop flag is set exactly when some StopProcess call has got past its check and taken its next step. */
  lemma TurnoffExactly(schedule: seq<Action>)
    requires After(START, schedule).Some?
    ensures After(START, schedule).value.turnoff <==> exists k | 0 <= k < |schedule| :: Does(Stops, schedule, k)
  {
    var p: State -> bool := (s: State) => s.turnoff;
    forall s, a | Apply(s, a).Some?
      ensures p(Apply(s, a).value) <==> Stops(s, a) || (p(s) && !Never()(s, a))
    {
      ApplyTurnoff(s, a);
    }
    forall k | 0 <= k < |schedule|
      ensures SetForGood(Stops, Never(), schedule, k) <==> Does(Stops, schedule, k)
    {
      NothingClears(Stops, schedule, k);
    }
    hide Apply, Stops, Never, After, Does, SetForGood;
    LastSetExactly(p, Stops, Never(), schedule);
  }

  lemma ApplyReads(s: State, a: Action)
    requires Apply(s, a).Some? && s.turnoff
    ensures var s' := Apply(s, a).value;
            s'.turnoff && s'.readCount - s.readCount == s'.late - s.late
  {
    if a.Run? {
      ExecShape(s, a.i, a.readFails);
    }
  }

  lemma {:induction false} ReadsAfterStop(s: State, schedule: seq<Action>)
    requires s.turnoff && After(s, schedule).Some?
    ensures var s' := After(s, schedule).value;
            s'.turnoff && s'.readCount - s.readCount == s'.late - s.late
    decreases |schedule|
  {
    if schedule != [] {
      ApplyReads(s, schedule[0]);
      ReadsAfterStop(Apply(s, schedule[0]).value, schedule[1..]);
    }
  }

  /**
   Once the stop flag is set, at most one further packet is read, by whatever
   calls are in flight or start later: the flag is never reset.
   */
  lemma StopIsForEver(s: State, schedule: seq<Action>)
    requires Reachable(s) && s.turnoff && After(s, schedule).Some?
    ensures After(s, schedule).value.turnoff
    ensures s.readCount <= After(s, schedule).value.readCount <= s.readCount + 1
  {
    ReachableInv(s);
    ScheduleKeepsInv(s, schedule);
    ReadsAfterStop(s, schedule);
    LateGrows(s, schedule);
  }

  lemma {:induction false} LateGrows(s: State, schedule: seq<Action>)
    requires After(s, schedule).Some?
    ensures s.late <= After(s, schedule).value.late
    decreases |schedule|
  {
    if schedule != [] {
      if schedule[0].Run? {
        ExecShape(s, schedule[0].i, schedule[0].readFails);
      }
      LateGrows(Apply(s, schedule[0]).value, schedule[1..]);
    }
  }

  // ---------- what the status does not tell ----------

  /** The status is Process exactly when its last writer is a Process call that is still in flight. */
  predicate ProcessWroteLast(s: State)
  {
    s.writer.Some? && s.writer.value < |s.calls|
    && s.calls[s.writer.value].kind.ProcessCall? && InFlight(s.calls[s.writer.value])
  }

  lemma ProcessStatusExactly(s: State)
    requires Reachable(s)
    ensures s.status.Process? <==> ProcessWroteLast(s)
  {
    ReachableInv(s);
  }

  lemma {:induction false} AfterAppend(s: State, a: seq<Action>, b: seq<Action>)
    requires After(s, a).Some?
    ensures After(s, a + b) == After(After(s, a).value, b)
    decreases |a|
  {
    if a == [] {
      assert a + b == b;
    } else {
      assert (a + b)[1..] == a[1..] + b;
      AfterAppend(Apply(s, a[0]).value, a[1..], b);
    }
  }

  lemma ReachableAfter(s: State, schedule: seq<Action>)
    requires Reachable(s) && After(s, schedule).Some?
    ensures Reachable(After(s, schedule).value)
  {
    var before :| After(START, before) == Some(s);
    AfterAppend(START, before, schedule);
    assert After(START, before + schedule) == After(s, schedule);
  }

  lemma ReachableStep(s: State, a: Action)
    requires Reachable(s) && Apply(s, a).Some?
    ensures Reachable(Apply(s, a).value)
  {
    assert After(Apply(s, a).value, [a][1..]) == Some(Apply(s, a).value);
    assert After(s, [a]) == Some(Apply(s, a).value);
    ReachableAfter(s, [a]);
  }

  lemma ReachableStart()
    ensures Reachable(START)
  {
    assert After(START, []) == Some(START);
  }

  lemma Do(s: State, a: Action) returns (s': State)
    requires Reachable(s) && Apply(s, a).Some?
    ensures Reachable(s') && s' == Apply(s, a).value
  {
    ReachableStep(s, a);
    s' := Apply(s, a).value;
  }

  /** A SetConfig call whose output fails, which leaves the input open. */
  const FAILING_SET_UP: Kind := SetUpCall(ViaConfig, OutputFails, 1, {})

  /** It is about to give up the process lock; a Process call has started. */
  lemma FailingSetUpHolds() returns (s: State)
    ensures Reachable(s)
    ensures s == START.(status := SetConfig, processLock := Some(0), writer := Some(0), context := Some(0),
                        inputs := [1],
                        calls := [Call(FAILING_SET_UP, 6), Call(ProcessCall, 0)])
  {
    ReachableStart();
    hide Reachable;
    s := Do(START, Start(FAILING_SET_UP));
    s := Do(s, Start(ProcessCall));
    assert s == START.(calls := [Call(FAILING_SET_UP, 0), Call(ProcessCall, 0)]);
    s := Do(s, Run(0, false));
    s := Do(s, Run(0, false));
    s := Do(s, Run(0, false));
    assert s.calls == [Call(FAILING_SET_UP, 3), Call(ProcessCall, 0)];
    s := Do(s, Run(0, false));
    s := Do(s, Run(0, false));
    s := Do(s, Run(0, false));
    assert s.entries == map[];
  }

  /** The Process call has written its status, then taken the lock, and is in its packet loop. */
  lemma ProcessOvertakes() returns (s: State)
    ensures Reachable(s)
    ensures s == START.(status := Process, processLock := Some(1), writer := Some(1), context := Some(0), inputs := [1],
                        held := map[1 := Some(0)], calls := [Call(FAILING_SET_UP, 7), Call(ProcessCall, 6)])
  {
    s := FailingSetUpHolds();
    hide Reachable;
    s := Do(s, Run(1, false));
    s := Do(s, Run(1, false));
    s := Do(s, Run(1, false));
    s := Do(s, Run(1, false));
    assert s.calls == [Call(FAILING_SET_UP, 6), Call(ProcessCall, 4)];
    s := Do(s, Run(0, false));
    assert s.calls == [Call(FAILING_SET_UP, 7), Call(ProcessCall, 4)];
    s := Do(s, Run(1, false));
    s := Do(s, Run(1, false));
    assert s.calls == [Call(FAILING_SET_UP, 7), Call(ProcessCall, 6)];
  }

  /**
   The converse of honesty fails: a SetConfig call that fails gives up the
   process lock before it writes SetFailed. A Process call that was waiting
   then runs its body under that status, and StopProcess refuses to stop it.
   */
  lemma StopRefusedWhileProcessing() returns (s: State)
    ensures Reachable(s) && |s.calls| == 3
    ensures s.calls[1].kind.ProcessCall? && InBody(s.calls[1]) && !BadContext(s, 1)
    ensures s.calls[2] == Call(StopCall, 0) && CanRun(s, 2)
    ensures Exec(s, 2, false).calls[2].Done() && !Exec(s, 2, false).turnoff
  {
    s := ProcessOvertakes();
    hide Reachable;
    s := Do(s, Run(0, false));
    assert s.calls == [Call(FAILING_SET_UP, 8), Call(ProcessCall, 6)];
    s := Do(s, Run(0, false));
    assert s.calls == [Call(FAILING_SET_UP, 9), Call(ProcessCall, 6)];
    s := Do(s, Run(0, false));
    assert s.calls == [Call(FAILING_SET_UP, 10), Call(ProcessCall, 6)];
    s := Do(s, Start(StopCall));
    assert s.calls == [Call(FAILING_SET_UP, 10), Call(ProcessCall, 6), Call(StopCall, 0)];
  }

  const GOOD_SET_UP: Kind := SetUpCall(ViaConfig, Succeeds, 1, {0})

  /** A set-up has succeeded: one stream is registered and the input holds one packet. */
  lemma StreamIsRegistered() returns (s: State)
    ensures Reachable(s)
    ensures s == START.(status := SetConfig, processLock := Some(0), context := Some(0), inputs := [1],
                        entries := map[0 := Live], writer := Some(0), calls := [Call(GOOD_SET_UP, 6)])
  {
    ReachableStart();
    hide Reachable;
    s := Do(START, Start(GOOD_SET_UP));
    s := Do(s, Run(0, false));
    s := Do(s, Run(0, false));
    s := Do(s, Run(0, false));
    s := Do(s, Run(0, false));
    assert s.calls == [Call(GOOD_SET_UP, 4)];
    s := Do(s, Run(0, false));
    s := Do(s, Run(0, false));
    assert s.calls == [Call(GOOD_SET_UP, 6)] && s.entries == map[0 := Live];
  }

  lemma SetUpSucceeds() returns (s: State)
    ensures Reachable(s)
    ensures s == START.(status := SetConfigFinished, context := Some(0), inputs := [1], entries := map[0 := Live],
                        writer := Some(0), calls := [Call(GOOD_SET_UP, 10)])
  {
    s := StreamIsRegistered();
    hide Reachable;
    s := Do(s, Run(0, false));
    s := Do(s, Run(0, false));
    assert s.calls == [Call(GOOD_SET_UP, 8)];
    s := Do(s, Run(0, false));
    s := Do(s, Run(0, false));
    assert s.calls == [Call(GOOD_SET_UP, 10)];
  }

  /** The Process call after it is about to poll for the first time. */
  lemma ProcessStarts() returns (s: State)
    ensures Reachable(s)
    ensures s == START.(status := Process, processLock := Some(1), context := Some(0), inputs := [1],
                        entries := map[0 := Live], writer := Some(1), held := map[1 := Some(0)],
                        calls := [Call(GOOD_SET_UP, 10), Call(ProcessCall, 6)])
  {
    s := SetUpSucceeds();
    hide Reachable;
    s := Do(s, Start(ProcessCall));
    s := Do(s, Run(1, false));
    s := Do(s, Run(1, false));
    assert s.calls == [Call(GOOD_SET_UP, 10), Call(ProcessCall, 2)];
    s := Do(s, Run(1, false));
    s := Do(s, Run(1, false));
    assert s.calls == [Call(GOOD_SET_UP, 10), Call(ProcessCall, 4)];
    s := Do(s, Run(1, false));
    s := Do(s, Run(1, false));
    assert s.calls == [Call(GOOD_SET_UP, 10), Call(ProcessCall, 6)];
  }

  /** It reads the one packet of the input that set-up opened, finds no other, and goes on to its flush. */
  lemma ProcessReadsThePacket() returns (s: State)
    ensures Reachable(s) && |s.calls| == 2 && s.calls[1].At(FlushAll)
    ensures s.readCount == 1 && s.inputs == [0]
  {
    s := ProcessStarts();
    hide Reachable;
    s := Do(s, Run(1, false));
    s := Do(s, Run(1, false));
    assert s.calls == [Call(GOOD_SET_UP, 10), Call(ProcessCall, 6)] && s.inputs == [0] && s.readCount == 1;
    s := Do(s, Run(1, false));
    s := Do(s, Run(1, false));
    assert s.calls == [Call(GOOD_SET_UP, 10), Call(ProcessCall, 8)];
  }

  /** A Process call is about to take its lock, and a StopProcess call has started. */
  lemma ProcessWrites() returns (s: State)
    ensures Reachable(s)
    ensures s == START.(status := Process, context := Some(0), inputs := [1], entries := map[0 := Live],
                        writer := Some(1), held := map[1 := Some(0)],
                        calls := [Call(GOOD_SET_UP, 10), Call(ProcessCall, 4), Call(StopCall, 0)])
  {
    s := SetUpSucceeds();
    hide Reachable;
    s := Do(s, Start(ProcessCall));
    s := Do(s, Start(StopCall));
    assert s.calls == [Call(GOOD_SET_UP, 10), Call(ProcessCall, 0), Call(StopCall, 0)];
    s := Do(s, Run(1, false));
    s := Do(s, Run(1, false));
    assert s.calls == [Call(GOOD_SET_UP, 10), Call(ProcessCall, 2), Call(StopCall, 0)];
    s := Do(s, Run(1, false));
    s := Do(s, Run(1, false));
    assert s.calls == [Call(GOOD_SET_UP, 10), Call(ProcessCall, 4), Call(StopCall, 0)];
  }

  /** The stop is accepted, and its caller has not reached its wait yet. */
  lemma StopAcceptedEarly() returns (s: State)
    ensures Reachable(s)
    ensures s == START.(status := Process, context := Some(0), inputs := [1], entries := map[0 := Live],
                        turnoff := true,
                        writer := Some(1), held := map[1 := Some(0)],
                        calls := [Call(GOOD_SET_UP, 10), Call(ProcessCall, 4), Call(StopCall, 2)])
  {
    s := ProcessWrites();
    hide Reachable;
    s := Do(s, Run(2, false));
    s := Do(s, Run(2, false));
    assert s.calls == [Call(GOOD_SET_UP, 10), Call(ProcessCall, 4), Call(StopCall, 2)];
  }

  /** The stopped Process call has seen the flag and is about to flush. */
  lemma ProcessSeesFlag() returns (s: State)
    ensures Reachable(s)
    ensures s == START.(status := Process, processLock := Some(1), context := Some(0), inputs := [1],
                        entries := map[0 := Live], turnoff := true, writer := Some(1), held := map[1 := Some(0)],
                        calls := [Call(GOOD_SET_UP, 10), Call(ProcessCall, 8), Call(StopCall, 2)])
  {
    s := StopAcceptedEarly();
    hide Reachable;
    s := Do(s, Run(1, false));
    s := Do(s, Run(1, false));
    s := Do(s, Run(1, false));
    assert s.calls == [Call(GOOD_SET_UP, 10), Call(ProcessCall, 8), Call(StopCall, 2)];
  }

  /** It has flushed and cleaned the streams. */
  lemma ProcessCleans() returns (s: State)
    ensures Reachable(s)
    ensures s == START.(status := Process, processLock := Some(1), context := Some(0), inputs := [1],
                        entries := map[0 := Null], turnoff := true, writer := Some(1), held := map[1 := Some(0)],
                        calls := [Call(GOOD_SET_UP, 10), Call(ProcessCall, 10), Call(StopCall, 2)])
  {
    s := ProcessSeesFlag();
    hide Reachable;
    s := Do(s, Run(1, false));
    s := Do(s, Run(1, false));
    assert s.calls == [Call(GOOD_SET_UP, 10), Call(ProcessCall, 10), Call(StopCall, 2)] && s.entries == map[0 := Null];
  }

  /** The stopped Process call has run to its end. */
  lemma ProcessEnds() returns (s: State)
    ensures Reachable(s)
    ensures s == START.(status := Finished, context := Some(0), inputs := [1], entries := map[0 := Null],
                        turnoff := true,
                        writer := Some(1), held := map[1 := Some(0)],
                        calls := [Call(GOOD_SET_UP, 10), Call(ProcessCall, 14), Call(StopCall, 2)])
  {
    s := ProcessCleans();
    hide Reachable;
    s := Do(s, Run(1, false));
    s := Do(s, Run(1, false));
    assert s.calls == [Call(GOOD_SET_UP, 10), Call(ProcessCall, 12), Call(StopCall, 2)];
    s := Do(s, Run(1, false));
    s := Do(s, Run(1, false));
    assert s.calls == [Call(GOOD_SET_UP, 10), Call(ProcessCall, 14), Call(StopCall, 2)];
  }

  lemma CleanUpCloses() returns (s: State)
    ensures Reachable(s)
    ensures s == START.(status := Reset, processLock := Some(3), inputs := [1], closed := {0}, turnoff := true,
                        writer := Some(3), held := map[1 := Some(0)],
                        calls := [Call(GOOD_SET_UP, 10), Call(ProcessCall, 14), Call(StopCall, 2),
                                  Call(CleanUpCall, 5)])
  {
    s := ProcessEnds();
    hide Reachable;
    s := Do(s, Start(CleanUpCall));
    s := Do(s, Run(3, false));
    s := Do(s, Run(3, false));
    s := Do(s, Run(3, false));
    assert s.calls == [Call(GOOD_SET_UP, 10), Call(ProcessCall, 14), Call(StopCall, 2), Call(CleanUpCall, 3)];
    s := Do(s, Run(3, false));
    s := Do(s, Run(3, false));
    assert s.calls == [Call(GOOD_SET_UP, 10), Call(ProcessCall, 14), Call(StopCall, 2), Call(CleanUpCall, 5)];
  }

  lemma CleanUpEnds() returns (s: State)
    ensures Reachable(s)
    ensures s == START.(status := Idle, inputs := [1], closed := {0}, turnoff := true, writer := Some(3),
                        held := map[1 := Some(0)],
                        calls := [Call(GOOD_SET_UP, 10), Call(ProcessCall, 14), Call(StopCall, 2),
                                  Call(CleanUpCall, 10)])
  {
    s := CleanUpCloses();
    hide Reachable;
    s := Do(s, Run(3, false));
    s := Do(s, Run(3, false));
    s := Do(s, Run(3, false));
    assert s.calls == [Call(GOOD_SET_UP, 10), Call(ProcessCall, 14), Call(StopCall, 2), Call(CleanUpCall, 8)];
    s := Do(s, Run(3, false));
    s := Do(s, Run(3, false));
    assert s.calls == [Call(GOOD_SET_UP, 10), Call(ProcessCall, 14), Call(StopCall, 2), Call(CleanUpCall, 10)];
  }

  /**
   StopProcess need not return: when Process and CleanUp finish between its
   check and its wait, the notification is lost. Nothing else is left to run.
   */
  lemma NotificationLost() returns (s: State)
    ensures Reachable(s) && |s.calls| == 4 && s.status == Idle
    ensures s.calls[2].Asleep() && s.calls[0].Done() && s.calls[1].Done() && s.calls[3].Done()
    ensures Stuck(s)
  {
    s := CleanUpEnds();
    hide Reachable;
    s := Do(s, Run(2, false));
    assert s.calls == [Call(GOOD_SET_UP, 10), Call(ProcessCall, 14), Call(StopCall, 3), Call(CleanUpCall, 10)];
    s := Do(s, Run(2, false));
    assert s.calls == [Call(GOOD_SET_UP, 10), Call(ProcessCall, 14), Call(StopCall, 4), Call(CleanUpCall, 10)];
  }

  /** The same stream again, from a buffer, for which a new context is allocated. */
  const SECOND_SET_UP: Kind := SetUpCall(ViaAvio, Succeeds, 1, {0})

  /** A second set-up after a Process call, and no CleanUp in between. */
  lemma SetUpRegistersAgain() returns (s: State)
    ensures Reachable(s)
    ensures s == START.(status := SetConfig, processLock := Some(3), context := Some(1), inputs := [1, 1],
                        entries := map[0 := Null], turnoff := true, writer := Some(3), held := map[1 := Some(0)],
                        calls := [Call(GOOD_SET_UP, 10), Call(ProcessCall, 14), Call(StopCall, 2),
                                  Call(SECOND_SET_UP, 6)])
  {
    s := ProcessEnds();
    hide Reachable;
    s := Do(s, Start(SECOND_SET_UP));
    s := Do(s, Run(3, false));
    s := Do(s, Run(3, false));
    s := Do(s, Run(3, false));
    s := Do(s, Run(3, false));
    assert s.calls == [Call(GOOD_SET_UP, 10), Call(ProcessCall, 14), Call(StopCall, 2), Call(SECOND_SET_UP, 4)];
    s := Do(s, Run(3, false));
    s := Do(s, Run(3, false));
    assert s.calls == [Call(GOOD_SET_UP, 10), Call(ProcessCall, 14), Call(StopCall, 2), Call(SECOND_SET_UP, 6)];
    assert s.entries == map[0 := Null];
  }

  lemma SetUpAgain() returns (s: State)
    ensures Reachable(s)
    ensures s == START.(status := SetConfigFinished, context := Some(1), inputs := [1, 1], entries := map[0 := Null],
                        turnoff := true, writer := Some(3), held := map[1 := Some(0)],
                        calls := [Call(GOOD_SET_UP, 10), Call(ProcessCall, 14), Call(StopCall, 2),
                                  Call(SECOND_SET_UP, 10)])
  {
    s := SetUpRegistersAgain();
    hide Reachable;
    s := Do(s, Run(3, false));
    s := Do(s, Run(3, false));
    assert s.calls == [Call(GOOD_SET_UP, 10), Call(ProcessCall, 14), Call(StopCall, 2), Call(SECOND_SET_UP, 8)];
    s := Do(s, Run(3, false));
    s := Do(s, Run(3, false));
    assert s.calls == [Call(GOOD_SET_UP, 10), Call(ProcessCall, 14), Call(StopCall, 2), Call(SECOND_SET_UP, 10)];
  }

  /** Although that set-up succeeds, the Process call after it meets the null pointer that the first one left. */
  lemma SecondProcessMeetsNull() returns (s: State)
    ensures Reachable(s) && |s.calls| == 5 && s.calls[4].At(InitTools)
    ensures HasNull(s.entries) && !BadContext(s, 4)
  {
    s := SetUpAgain();
    hide Reachable;
    s := Do(s, Start(ProcessCall));
    s := Do(s, Run(4, false));
    s := Do(s, Run(4, false));
    s := Do(s, Run(4, false));
    s := Do(s, Run(4, false));
    assert s.calls[4] == Call(ProcessCall, 4);
    s := Do(s, Run(4, false));
    assert s.entries[0].Null?;
  }

  /** A Process call before any set-up reads through a null pointer; no stream entry is null. */
  lemma FirstProcessReadsNull() returns (s: State)
    ensures Reachable(s) && |s.calls| == 1 && s.calls[0].At(Read) && CanRun(s, 0)
    ensures BadContext(s, 0) && s.held[0].None? && !HasNull(s.entries)
  {
    ReachableStart();
    hide Reachable;
    s := Do(START, Start(ProcessCall));
    s := Do(s, Run(0, false));
    s := Do(s, Run(0, false));
    s := Do(s, Run(0, false));
    s := Do(s, Run(0, false));
    assert s.calls == [Call(ProcessCall, 4)];
    s := Do(s, Run(0, false));
    s := Do(s, Run(0, false));
    s := Do(s, Run(0, false));
    assert s.calls == [Call(ProcessCall, 7)];
  }

  const BAD_INPUT: Kind := SetUpCall(ViaConfig, InputFails, 1, {})

  /** A Process call has read the shared pointer while a set-up was opening an input that fails. */
  lemma CapturedTooEarly() returns (s: State)
    ensures Reachable(s)
    ensures s == START.(status := SetConfig, processLock := Some(0), writer := Some(0), context := Some(0),
                        inputs := [1],
                        held := map[1 := Some(0)], calls := [Call(BAD_INPUT, 5), Call(ProcessCall, 1)])
  {
    ReachableStart();
    hide Reachable;
    s := Do(START, Start(BAD_INPUT));
    s := Do(s, Start(ProcessCall));
    assert s == START.(calls := [Call(BAD_INPUT, 0), Call(ProcessCall, 0)]);
    s := Do(s, Run(0, false));
    s := Do(s, Run(0, false));
    s := Do(s, Run(0, false));
    assert s.calls == [Call(BAD_INPUT, 3), Call(ProcessCall, 0)];
    s := Do(s, Run(0, false));
    s := Do(s, Run(0, false));
    assert s.calls == [Call(BAD_INPUT, 5), Call(ProcessCall, 0)];
    s := Do(s, Run(1, false));
    assert s.held == map[1 := Some(0)];
  }

  /** It waits for the lock, and when it has it the context was closed by the set-up that failed. */
  lemma WaitingProcessReadsClosed() returns (s: State)
    ensures Reachable(s) && |s.calls| == 2 && s.calls[1].At(Read) && CanRun(s, 1)
    ensures BadContext(s, 1) && s.held[1].Some?
  {
    s := CapturedTooEarly();
    hide Reachable;
    s := Do(s, Run(0, false));
    s := Do(s, Run(0, false));
    assert s.calls == [Call(BAD_INPUT, 7), Call(ProcessCall, 1)];
    assert s.closed == {0};
    s := Do(s, Run(1, false));
    s := Do(s, Run(1, false));
    s := Do(s, Run(1, false));
    assert s.calls == [Call(BAD_INPUT, 7), Call(ProcessCall, 4)];
    s := Do(s, Run(1, false));
    s := Do(s, Run(1, false));
    s := Do(s, Run(1, false));
    assert s.calls == [Call(BAD_INPUT, 7), Call(ProcessCall, 7)];
  }
}
