/** The handshake in cache_utils.c by which one CPU stops the other and suspends both caches around a flash
    operation, as a state machine over its single statements, for two CPUs with a cache each and any number of pinned
    tasks. */
module FlashLock {
  import opened Bytes

  datatype Cpu = PRO | APP

  function Other(c: Cpu): (o: Cpu)
    ensures o != c
  {
    if c == PRO then APP else PRO
  }

  datatype PerCpu<T> = PerCpu(pro: T, app: T) {
    function Get(c: Cpu): T {
      if c == PRO then pro else app
    }

    function Set(c: Cpu, v: T): PerCpu<T> {
      if c == PRO then PerCpu(v, app) else PerCpu(pro, v)
    }
  }

  /** Where a task is: at ordinary work, or about to execute the statement named. */
  datatype Place =
    | Ordinary
    // spi_flash_disable_interrupts_caches_and_other_cpu
    | Locking | Checking | Recording | Clearing | Calling | Starting | Suspending | Masking | DisablingOwn
    | DisablingOther
    // the flash operation
    | Inside
    // spi_flash_enable_interrupts_caches_and_other_cpu
    | Verifying | Unrecording | RestoringOwn | RestoringOther | Completing | Unmasking | Resuming | Unlocking
  {
    function Number(): nat {
      match this
      case Ordinary => 0 case Locking => 1 case Checking => 2 case Recording => 3 case Clearing => 4 case Calling => 5
      case Starting => 6 case Suspending => 7 case Masking => 8 case DisablingOwn => 9 case DisablingOther => 10
      case Inside => 11 case Verifying => 12 case Unrecording => 13 case RestoringOwn => 14 case RestoringOther => 15
      case Completing => 16 case Unmasking => 17 case Resuming => 18 case Unlocking => 19
    }

    /** At one of the statements from `first` to `last`. */
    predicate In(first: Place, last: Place) {
      first.Number() <= Number() <= last.Number()
    }

    predicate Active() {
      In(Checking, Unlocking)
    }

    function Next(): Place {
      match this
      case Ordinary => Locking case Locking => Checking case Checking => Recording case Recording => Clearing
      case Clearing => Calling case Calling => Starting case Starting => Suspending case Suspending => Masking
      case Masking => DisablingOwn case DisablingOwn => DisablingOther case DisablingOther => Inside
      case Inside => Verifying case Verifying => Unrecording case Unrecording => RestoringOwn
      case RestoringOwn => RestoringOther case RestoringOther => Completing case Completing => Unmasking
      case Unmasking => Resuming case Resuming => Unlocking case Unlocking => Ordinary
    }
  }

  /** Where a CPU's IPC task is: waiting for a request, in some other callback, or in spi_flash_op_block_func. */
  datatype Callback =
    | Waiting | Foreign | Suspend | Mask | ClearComplete | SetStart | Spin | RestoreCache | Unmask | Resume

  /** What a CPU executes; a suspended scheduler leaves it to one of them. */
  datatype Actor = Task(t: nat) | Ipc

  /** A recursive mutex in the hands of a task. */
  datatype Held = Held(t: nat, count: nat)

  /** What belongs to one CPU: its IPC task and whether a flash callback is requested of it, who has suspended its
      scheduler, whether interrupts that need flash are disabled, and its cache with the state saved for it. */
  datatype CpuState = CpuState(
    callback: Callback,
    requested: bool,
    suspendedBy: Option<Actor>,
    masked: bool,
    cache: bool,
    saved: bool)

  datatype State = State(
    cpuOf: seq<Cpu>,
    place: seq<Place>,
    cpus: PerCpu<CpuState>,
    mutex: Option<Held>,
    canStart: bool,
    complete: bool,
    opCpu: Option<Cpu>,
    failed: bool)
  {
    function Cpu(c: Cpu): CpuState {
      cpus.Get(c)
    }

    function With(c: Cpu, x: CpuState): State {
      this.(cpus := cpus.Set(c, x))
    }
  }

  ghost predicate Init(s: State) {
    && |s.place| == |s.cpuOf|
    && (forall t :: 0 <= t < |s.place| ==> s.place[t] == Ordinary)
    && (forall c :: s.Cpu(c) == CpuState(Waiting, false, None, false, true, s.Cpu(c).saved))
    && s.mutex == None && !s.canStart && !s.complete && s.opCpu == None && !s.failed
  }

  // ---------------------------------------------------------------------------------------------
  // Steps
  // ---------------------------------------------------------------------------------------------

  datatype Step =
    | Work(t: nat)          // a task runs ordinary code from flash
    | Lock(t: nat)          // spi_flash_op_lock on its own
    | Unlock(t: nat)        // spi_flash_op_unlock on its own
    | Advance(t: nat)       // the next statement of disabling or enabling
    | Serve(c: Cpu)         // the IPC task takes up the request, or executes the next statement of the block function
    | OtherCall(c: Cpu)     // another callback starts on the IPC task
    | OtherReturn(c: Cpu)   // and ends
    | Interrupt(c: Cpu)     // an interrupt handler that lies in flash

  predicate MayRun(s: State, c: Cpu, a: Actor) {
    s.Cpu(c).suspendedBy == None || s.Cpu(c).suspendedBy == Some(a)
  }

  predicate IsTask(s: State, t: nat) {
    t < |s.place| && t < |s.cpuOf| && MayRun(s, s.cpuOf[t], Task(t))
  }

  predicate LockFree(s: State, t: nat) {
    s.mutex == None || s.mutex.value.t == t
  }

  function Locked(s: State, t: nat): Option<Held> {
    Some(Held(t, if s.mutex.None? then 1 else s.mutex.value.count + 1))
  }

  function Unlocked(m: Option<Held>): Option<Held> {
    if m.None? || m.value.count <= 1 then None else Some(m.value.(count := m.value.count - 1))
  }

  predicate Enabled(s: State, step: Step) {
    match step
    case Work(t) => IsTask(s, t) && s.place[t] == Ordinary
    case Lock(t) => IsTask(s, t) && s.place[t] == Ordinary && LockFree(s, t)
    case Unlock(t) => IsTask(s, t) && s.place[t] == Ordinary && s.mutex.Some? && s.mutex.value.t == t
    case Advance(t) =>
      IsTask(s, t) &&
      (match s.place[t]
       case Locking => LockFree(s, t)
       case Calling => !s.Cpu(Other(s.cpuOf[t])).requested
       case Starting => s.canStart
       case _ => true)
    case Serve(c) =>
      MayRun(s, c, Ipc) &&
      (match s.Cpu(c).callback
       case Waiting => s.Cpu(c).requested
       case Foreign => false
       case Spin => s.complete
       case _ => true)
    case OtherCall(c) => MayRun(s, c, Ipc) && s.Cpu(c).callback == Waiting
    case OtherReturn(c) => MayRun(s, c, Ipc) && s.Cpu(c).callback == Foreign
    case Interrupt(c) => !s.Cpu(c).masked
  }

  function Disabled(x: CpuState): CpuState {
    x.(saved := x.cache, cache := false)
  }

  function Restored(x: CpuState): CpuState {
    x.(cache := x.saved)
  }

  /** What the statement at `p` does to the CPU that executes it. */
  function OwnStatement(x: CpuState, t: nat, p: Place): CpuState {
    match p
    case Suspending => x.(suspendedBy := Some(Task(t)))
    case Masking => x.(masked := true)
    case DisablingOwn => Disabled(x)
    case RestoringOwn => Restored(x)
    case Unmasking => x.(masked := false)
    case Resuming => x.(suspendedBy := None)
    case _ => x
  }

  /** What it does to the other CPU. */
  function OtherStatement(x: CpuState, p: Place): CpuState {
    match p
    case Calling => x.(requested := true)
    case DisablingOther => Disabled(x)
    case RestoringOther => Restored(x)
    case _ => x
  }

  /** What it does to the flags that both CPUs share. */
  function SharedStatement(s: State, c: Cpu, p: Place): State {
    match p
    case Checking => s.(failed := s.failed || s.opCpu != None)
    case Recording => s.(opCpu := Some(c))
    case Clearing => s.(canStart := false)
    case Verifying => s.(failed := s.failed || s.opCpu != Some(c))
    case Unrecording => s.(opCpu := None)
    case Completing => s.(complete := true)
    case _ => s
  }

  /** The statement a task is at, without moving on or touching the mutex. */
  function Statement(s: State, t: nat): State
    requires IsTask(s, t)
  {
    var c, p := s.cpuOf[t], s.place[t];
    var own, other := OwnStatement(s.Cpu(c), t, p), OtherStatement(s.Cpu(Other(c)), p);
    SharedStatement(s, c, p).(cpus := s.cpus.Set(c, own).Set(Other(c), other))
  }

  function AfterAdvance(s: State, t: nat): State
    requires IsTask(s, t)
  {
    var p := s.place[t];
    Statement(s, t).(
      place := s.place[t := p.Next()],
      mutex := if p == Locking then Locked(s, t) else if p == Unlocking then Unlocked(s.mutex) else s.mutex)
  }

  function BlockStatement(x: CpuState): CpuState {
    match x.callback
    case Waiting => x.(requested := false, callback := Suspend)
    case Foreign => x
    case Suspend => x.(suspendedBy := Some(Ipc), callback := Mask)
    case Mask => x.(masked := true, callback := ClearComplete)
    case ClearComplete => x.(callback := SetStart)
    case SetStart => x.(callback := Spin)
    case Spin => x.(callback := RestoreCache)
    case RestoreCache => Restored(x).(callback := Unmask)
    case Unmask => x.(masked := false, callback := Resume)
    case Resume => x.(suspendedBy := None, callback := Waiting)
  }

  function AfterServe(s: State, c: Cpu): State {
    s.With(c, BlockStatement(s.Cpu(c))).(
      complete := if s.Cpu(c).callback == ClearComplete then false else s.complete,
      canStart := if s.Cpu(c).callback == SetStart then true else s.canStart)
  }

  /** The state after a step; waiting in a loop changes nothing and is no step. */
  function After(s: State, step: Step): State
    requires Enabled(s, step)
  {
    match step
    case Lock(t) => s.(mutex := Locked(s, t))
    case Unlock(t) => s.(mutex := Unlocked(s.mutex))
    case Advance(t) => AfterAdvance(s, t)
    case Serve(c) => AfterServe(s, c)
    case OtherCall(c) => s.With(c, s.Cpu(c).(callback := Foreign))
    case OtherReturn(c) => s.With(c, s.Cpu(c).(callback := Waiting))
    case _ => s
  }

  ghost predicate Successor(s: State, s': State) {
    exists step {:trigger Enabled(s, step)} :: Enabled(s, step) && s' == After(s, step)
  }

  ghost predicate StepAt(run: seq<State>, i: int)
    requires 0 < i < |run|
  {
    Successor(run[i - 1], run[i])
  }

  /** Any interleaving, of any length. */
  ghost predicate IsRun(run: seq<State>) {
    && run != [] && Init(run[0])
    && forall i :: 0 < i < |run| ==> StepAt(run, i)
  }

  // ---------------------------------------------------------------------------------------------
  // The invariant
  // ---------------------------------------------------------------------------------------------

  /** The task that is disabling, inside or enabling. */
  function ActiveTask(s: State): Option<nat> {
    if s.mutex.Some? && s.mutex.value.t < |s.place| && s.place[s.mutex.value.t].Active() then Some(s.mutex.value.t)
    else None
  }

  /** The IPC task does not serve the operation in progress: it waits, does something else, or is still leaving the
      block function of an operation that has completed. */
  predicate Leaving(x: CpuState, complete: bool) {
    match x.callback
    case Waiting => true
    case Foreign => true
    case Spin => complete && x.saved
    case RestoreCache => x.saved
    case Unmask => true
    case Resume => true
    case _ => false
  }

  predicate BlockSuspends(b: Callback) {
    b != Waiting && b != Foreign && b != Suspend
  }

  predicate BlockMasks(b: Callback) {
    b == ClearComplete || b == SetStart || b == Spin || b == RestoreCache || b == Unmask
  }

  /** A CPU on which no task is active. */
  predicate Passive(x: CpuState) {
    && x.suspendedBy == (if BlockSuspends(x.callback) then Some(Ipc) else None)
    && x.masked == BlockMasks(x.callback)
  }

  predicate Quiet(x: CpuState, complete: bool) {
    Passive(x) && Leaving(x, complete) && !x.requested && x.cache
  }

  /** The CPU of the active task `t`, which is at `p`. */
  predicate OwnSide(x: CpuState, t: nat, p: Place) {
    && (x.callback == Waiting || x.callback == Foreign) && !x.requested
    && x.suspendedBy == (if p.In(Masking, Resuming) then Some(Task(t)) else None)
    && x.masked == p.In(DisablingOwn, Unmasking)
    && x.cache == !p.In(DisablingOther, RestoringOwn)
    && (p.In(DisablingOther, RestoringOwn) ==> x.saved)
  }

  /** The other CPU: how far the block function has come. */
  predicate OtherSide(x: CpuState, canStart: bool, complete: bool, p: Place) {
    && Passive(x)
    && x.cache == !p.In(Inside, RestoringOther)
    && (p.In(Inside, Completing) ==> x.saved)
    && (p == Calling ==> !canStart)
    && if p == Starting then
         if x.requested then Leaving(x, complete) && !canStart
         else
           && x.callback in {Suspend, Mask, ClearComplete, SetStart, Spin}
           && (canStart <==> x.callback == Spin)
           && (x.callback == SetStart || x.callback == Spin ==> !complete)
       else if p.In(Suspending, Completing) then
         !x.requested && x.callback == Spin && !complete
       else
         !x.requested && Leaving(x, complete)
  }

  /** `s_flash_op_cpu` is what the assertions expect. */
  predicate Recorded(opCpu: Option<Cpu>, c: Cpu, p: Place) {
    opCpu == if p.In(Clearing, Unrecording) then Some(c) else None
  }

  ghost predicate Consistent(s: State)
    requires |s.place| == |s.cpuOf|
  {
    match ActiveTask(s)
    case None => Quiet(s.cpus.pro, s.complete) && Quiet(s.cpus.app, s.complete) && s.opCpu == None
    case Some(t) =>
      var c, p := s.cpuOf[t], s.place[t];
      OwnSide(s.Cpu(c), t, p) && OtherSide(s.Cpu(Other(c)), s.canStart, s.complete, p) && Recorded(s.opCpu, c, p)
  }

  ghost predicate Locks(s: State) {
    && |s.place| == |s.cpuOf|
    && (s.mutex.Some? ==> s.mutex.value.t < |s.place| && s.mutex.value.count > 0)
    && (forall t :: 0 <= t < |s.place| && s.place[t].Active() ==> s.mutex.Some? && s.mutex.value.t == t)
  }

  ghost predicate Inv(s: State) {
    Locks(s) && Consistent(s) && !s.failed
  }

  lemma InitInv(s: State)
    requires Init(s)
    ensures Inv(s)
  {
    assert s.Cpu(PRO) == s.cpus.pro && s.Cpu(APP) == s.cpus.app;
  }

  // ---------------------------------------------------------------------------------------------
  // Every step keeps it
  // ---------------------------------------------------------------------------------------------

  lemma LocksKept(s: State, t: nat)
    requires Locks(s) && Enabled(s, Advance(t))
    ensures Locks(AfterAdvance(s, t))
  {
    AdvanceSides(s, t);
    NextIsActive(s.place[t]);
    hide Statement, AfterAdvance, Place.In, Place.Number, Place.Next;
    AdvanceMutex(s, t);
  }

  lemma AdvanceMutex(s: State, t: nat)
    requires IsTask(s, t)
    ensures var s', p := AfterAdvance(s, t), s.place[t];
            && s'.place == s.place[t := p.Next()]
            && s'.mutex == if p == Locking then Locked(s, t) else if p == Unlocking then Unlocked(s.mutex) else s.mutex
  {
    hide Statement;
  }

  lemma NextIsActive(p: Place)
    ensures p.Next().Active() <==> p == Locking || (p.Active() && p != Unlocking)
    ensures p.In(Checking, Resuming) <==> p.Active() && p != Unlocking
    ensures !Ordinary.Active() && !Locking.Active() && Unlocking.Active()
  {}

  lemma ActiveAfter(s: State, t: nat)
    requires Locks(s) && Enabled(s, Advance(t))
    ensures s.place[t].In(Checking, Resuming) ==> ActiveTask(s) == Some(t) == ActiveTask(AfterAdvance(s, t))
    ensures s.place[t] == Unlocking ==> ActiveTask(s) == Some(t) && ActiveTask(AfterAdvance(s, t)) == None
    ensures s.place[t] == Locking ==> ActiveTask(s) == None && ActiveTask(AfterAdvance(s, t)) == Some(t)
    ensures s.place[t] == Ordinary ==> ActiveTask(s) == ActiveTask(AfterAdvance(s, t))
  {
    NextIsActive(s.place[t]);
    AdvanceMutex(s, t);
    hide Statement, AfterAdvance, Place.In, Place.Number;
  }

  lemma OwnAdvances(x: CpuState, t: nat, p: Place)
    requires OwnSide(x, t, p) && p.In(Checking, Resuming)
    ensures OwnSide(OwnStatement(x, t, p), t, p.Next())
  {}

  lemma OtherAdvances(s: State, c: Cpu, x: CpuState, p: Place)
    requires OtherSide(x, s.canStart, s.complete, p) && p.In(Checking, Resuming)
    requires p == Calling ==> !x.requested
    requires p == Starting ==> s.canStart
    ensures OtherSide(OtherStatement(x, p), SharedStatement(s, c, p).canStart, SharedStatement(s, c, p).complete,
                      p.Next())
  {
    if p.In(Checking, Starting) {
      OtherBefore(s, c, x, p);
    } else if p.In(Suspending, DisablingOther) {
      OtherDuring(s, c, x, p);
    } else if p.In(Inside, RestoringOther) {
      OtherInside(s, c, x, p);
    } else {
      OtherBehind(s, c, x, p);
    }
  }

  lemma OtherBefore(s: State, c: Cpu, x: CpuState, p: Place)
    requires OtherSide(x, s.canStart, s.complete, p) && p.In(Checking, Starting)
    requires p == Calling ==> !x.requested
    requires p == Starting ==> s.canStart
    ensures OtherSide(OtherStatement(x, p), SharedStatement(s, c, p).canStart, SharedStatement(s, c, p).complete,
                      p.Next())
  {}

  lemma OtherDuring(s: State, c: Cpu, x: CpuState, p: Place)
    requires OtherSide(x, s.canStart, s.complete, p) && p.In(Suspending, DisablingOther)
    ensures OtherSide(OtherStatement(x, p), SharedStatement(s, c, p).canStart, SharedStatement(s, c, p).complete,
                      p.Next())
  {}

  lemma OtherInside(s: State, c: Cpu, x: CpuState, p: Place)
    requires OtherSide(x, s.canStart, s.complete, p) && p.In(Inside, RestoringOther)
    ensures OtherSide(OtherStatement(x, p), SharedStatement(s, c, p).canStart, SharedStatement(s, c, p).complete,
                      p.Next())
  {}

  lemma OtherBehind(s: State, c: Cpu, x: CpuState, p: Place)
    requires OtherSide(x, s.canStart, s.complete, p) && p.In(Completing, Resuming)
    ensures OtherSide(OtherStatement(x, p), SharedStatement(s, c, p).canStart, SharedStatement(s, c, p).complete,
                      p.Next())
  {}

  lemma RecordAdvances(s: State, c: Cpu, p: Place)
    requires Recorded(s.opCpu, c, p) && !s.failed && p.In(Checking, Resuming)
    ensures Recorded(SharedStatement(s, c, p).opCpu, c, p.Next()) && !SharedStatement(s, c, p).failed
  {}

  /** After a statement each CPU has what the statement did to it. */
  lemma AdvanceSides(s: State, t: nat)
    requires IsTask(s, t)
    ensures var s', c, p := AfterAdvance(s, t), s.cpuOf[t], s.place[t];
            && s'.Cpu(c) == OwnStatement(s.Cpu(c), t, p) && s'.Cpu(Other(c)) == OtherStatement(s.Cpu(Other(c)), p)
            && s'.canStart == SharedStatement(s, c, p).canStart && s'.complete == SharedStatement(s, c, p).complete
            && s'.opCpu == SharedStatement(s, c, p).opCpu && s'.failed == SharedStatement(s, c, p).failed
            && s'.cpuOf == s.cpuOf && s'.place[t] == p.Next()
  {
    hide OwnStatement, OtherStatement;
  }

  lemma AdvanceActive(s: State, t: nat)
    requires Inv(s) && Enabled(s, Advance(t)) && s.place[t].In(Checking, Resuming)
    ensures Inv(AfterAdvance(s, t))
  {
    hide Locks, OwnSide, OtherSide, Recorded, OwnStatement, OtherStatement, SharedStatement, AfterAdvance;
    var c, p := s.cpuOf[t], s.place[t];
    LocksKept(s, t);
    ActiveAfter(s, t);
    AdvanceSides(s, t);
    OwnAdvances(s.Cpu(c), t, p);
    OtherAdvances(s, c, s.Cpu(Other(c)), p);
    RecordAdvances(s, c, p);
  }

  lemma QuietEnters(x: CpuState, t: nat, canStart: bool, complete: bool)
    requires Quiet(x, complete)
    ensures OtherSide(x, canStart, complete, Checking)
    ensures x.suspendedBy == None ==> OwnSide(x, t, Checking)
  {}

  lemma SidesBecomeQuiet(x: CpuState, t: nat, canStart: bool, complete: bool)
    ensures OwnSide(x, t, Unlocking) ==> Quiet(x, complete)
    ensures OtherSide(x, canStart, complete, Unlocking) ==> Quiet(x, complete)
  {}

  lemma AdvanceOuter(s: State, t: nat)
    requires Inv(s) && Enabled(s, Advance(t))
    requires (s.place[t] == Ordinary || s.place[t] == Locking || s.place[t] == Unlocking)
    ensures Inv(AfterAdvance(s, t))
  {
    hide Locks, OwnSide, OtherSide, AfterAdvance, ActiveTask;
    LocksKept(s, t);
    ActiveAfter(s, t);
    AdvanceSides(s, t);
    var c := s.cpuOf[t];
    if s.place[t] == Locking {
      QuietIsFree(s.Cpu(c), t, s.complete);
      QuietEnters(s.Cpu(c), t, s.canStart, s.complete);
      QuietEnters(s.Cpu(Other(c)), t, s.canStart, s.complete);
    } else if s.place[t] == Unlocking {
      SidesBecomeQuiet(s.Cpu(c), t, s.canStart, s.complete);
      SidesBecomeQuiet(s.Cpu(Other(c)), t, s.canStart, s.complete);
    } else {
      PlaceOfOther(s, t);
    }
  }

  lemma PlaceOfOther(s: State, t: nat)
    requires Inv(s) && IsTask(s, t) && s.place[t] == Ordinary
    ensures var s' := AfterAdvance(s, t);
            && s'.cpus == s.cpus && s'.canStart == s.canStart
            && (ActiveTask(s).Some? ==>
                  ActiveTask(s).value < |s'.place| && s'.place[ActiveTask(s).value] == s.place[ActiveTask(s).value])
  {
    hide OwnSide, OtherSide;
  }

  lemma QuietIsFree(x: CpuState, t: nat, complete: bool)
    requires Quiet(x, complete) && x.suspendedBy in {None, Some(Task(t))}
    ensures x.suspendedBy == None
  {}

  lemma LockInv(s: State, t: nat, lock: bool)
    requires Inv(s) && Enabled(s, if lock then Lock(t) else Unlock(t))
    ensures Inv(After(s, if lock then Lock(t) else Unlock(t)))
  {
    hide OwnSide, OtherSide, Quiet;
    var s' := After(s, if lock then Lock(t) else Unlock(t));
    assert ActiveTask(s') == ActiveTask(s);
  }

  lemma ServeQuiet(x: CpuState, complete: bool)
    requires Quiet(x, complete) && x.callback != Foreign && x.callback != Waiting
    ensures Quiet(BlockStatement(x), complete) && x.callback != ClearComplete && x.callback != SetStart
  {}

  lemma ServeOther(x: CpuState, canStart: bool, complete: bool, p: Place)
    requires OtherSide(x, canStart, complete, p) && x.callback != Foreign
    requires (x.callback == Waiting ==> x.requested) && (x.callback == Spin ==> complete)
    ensures OtherSide(BlockStatement(x), if x.callback == SetStart then true else canStart,
                      if x.callback == ClearComplete then false else complete, p)
  {}

  lemma ServeInv(s: State, c: Cpu)
    requires Inv(s) && Enabled(s, Serve(c))
    ensures Inv(AfterServe(s, c))
  {
    hide OtherSide, Quiet, BlockStatement, Recorded;
    var s' := AfterServe(s, c);
    assert ActiveTask(s') == ActiveTask(s);
    assert s'.Cpu(c) == BlockStatement(s.Cpu(c)) && s'.Cpu(Other(c)) == s.Cpu(Other(c));
    match ActiveTask(s) {
      case None =>
        QuietUnrequested(s.Cpu(c), s.complete);
        ServeQuiet(s.Cpu(c), s.complete);
      case Some(t) =>
        assert c == Other(s.cpuOf[t]);
        hide OwnSide;
        ServeOther(s.Cpu(c), s.canStart, s.complete, s.place[t]);
    }
  }

  lemma QuietUnrequested(x: CpuState, complete: bool)
    requires Quiet(x, complete)
    ensures !x.requested
  {}

  lemma OtherCallback(x: CpuState, t: nat, canStart: bool, complete: bool, p: Place, b: Callback)
    requires (x.callback == Waiting || x.callback == Foreign) && (b == Waiting || b == Foreign)
    ensures Quiet(x, complete) ==> Quiet(x.(callback := b), complete)
    ensures OwnSide(x, t, p) ==> OwnSide(x.(callback := b), t, p)
    ensures OtherSide(x, canStart, complete, p) ==> OtherSide(x.(callback := b), canStart, complete, p)
  {}

  lemma OtherInv(s: State, c: Cpu, call: bool)
    requires Inv(s) && Enabled(s, if call then OtherCall(c) else OtherReturn(c))
    ensures Inv(After(s, if call then OtherCall(c) else OtherReturn(c)))
  {
    hide OwnSide, OtherSide, Quiet, Recorded;
    var b := if call then Foreign else Waiting;
    var s' := After(s, if call then OtherCall(c) else OtherReturn(c));
    assert s' == s.With(c, s.Cpu(c).(callback := b));
    assert ActiveTask(s') == ActiveTask(s);
    match ActiveTask(s) {
      case None =>
        OtherCallback(s.Cpu(c), 0, s.canStart, s.complete, Ordinary, b);
      case Some(t) =>
        OtherCallback(s.Cpu(c), t, s.canStart, s.complete, s.place[t], b);
    }
  }

  /** Every step keeps the invariant. */
  lemma StepInv(s: State, step: Step)
    requires Inv(s) && Enabled(s, step)
    ensures Inv(After(s, step))
  {
    hide Inv, AfterAdvance, AfterServe;
    match step {
      case Lock(t) => LockInv(s, t, true);
      case Unlock(t) => LockInv(s, t, false);
      case Advance(t) =>
        if s.place[t].In(Checking, Resuming) {
          AdvanceActive(s, t);
        } else {
          AdvanceOuter(s, t);
        }
      case Serve(c) => ServeInv(s, c);
      case OtherCall(c) => OtherInv(s, c, true);
      case OtherReturn(c) => OtherInv(s, c, false);
      case _ =>
    }
  }

  // ---------------------------------------------------------------------------------------------
  // What holds in every run
  // ---------------------------------------------------------------------------------------------

  lemma {:induction false} RunInv(run: seq<State>, i: nat)
    requires IsRun(run) && i < |run|
    ensures Inv(run[i])
    decreases i
  {
    hide Inv, Enabled, After;
    if i == 0 {
      InitInv(run[0]);
    } else {
      RunInv(run, i - 1);
      assert StepAt(run, i);
      var step :| Enabled(run[i - 1], step) && run[i] == After(run[i - 1], step);
      StepInv(run[i - 1], step);
    }
  }

  /** The flash operation of a task excludes every other one, both caches are suspended, interrupts that need flash are
      disabled on both CPUs, nothing else can run on the task's CPU, and the other CPU spins in the block function. */
  lemma InsideIsExclusive(run: seq<State>, i: nat, t: nat)
    requires IsRun(run) && i < |run| && t < |run[i].place| && t < |run[i].cpuOf| && run[i].place[t] == Inside
    ensures forall u :: 0 <= u < |run[i].place| && u != t ==> !run[i].place[u].Active()
    ensures !run[i].cpus.pro.cache && !run[i].cpus.app.cache && run[i].cpus.pro.masked && run[i].cpus.app.masked
    ensures run[i].Cpu(run[i].cpuOf[t]).suspendedBy == Some(Task(t))
    ensures run[i].Cpu(Other(run[i].cpuOf[t])).callback == Spin && !run[i].complete
  {
    hide Inv, IsRun, Init, Place.Active;
    RunInv(run, i);
    InsideState(run[i], t);
  }

  lemma InsideState(s: State, t: nat)
    requires Inv(s) && t < |s.place| && t < |s.cpuOf| && s.place[t] == Inside
    ensures forall u :: 0 <= u < |s.place| && u != t ==> !s.place[u].Active()
    ensures !s.cpus.pro.cache && !s.cpus.app.cache && s.cpus.pro.masked && s.cpus.app.masked
    ensures s.Cpu(s.cpuOf[t]).suspendedBy == Some(Task(t)) && s.Cpu(Other(s.cpuOf[t])).callback == Spin && !s.complete
  {
    NextIsActive(Inside);
    assert Inside.Active();
    hide OwnSide, OtherSide, Place.In, Place.Number, Place.Active, Quiet, Recorded;
    assert ActiveTask(s) == Some(t);
    InsideSides(s.Cpu(s.cpuOf[t]), s.Cpu(Other(s.cpuOf[t])), t, s.canStart, s.complete);
  }

  lemma InsideSides(x: CpuState, y: CpuState, t: nat, canStart: bool, complete: bool)
    requires OwnSide(x, t, Inside) && OtherSide(y, canStart, complete, Inside)
    ensures !x.cache && !y.cache && x.masked && y.masked && x.suspendedBy == Some(Task(t)) && y.callback == Spin
    ensures !complete
  {}

  predicate NeedsFlash(step: Step) {
    step.Work? || step.Interrupt? || step.OtherCall? || step.OtherReturn?
  }

  /** Whatever needs flash runs only while both caches are on. */
  lemma OrdinaryWorkHasCaches(run: seq<State>, i: nat, step: Step)
    requires IsRun(run) && i < |run| && Enabled(run[i], step) && NeedsFlash(step)
    ensures run[i].cpus.pro.cache && run[i].cpus.app.cache
  {
    RunInv(run, i);
    var s := run[i];
    hide IsRun, OwnSide, OtherSide, Init;
    if ActiveTask(s).Some? && !(s.cpus.pro.cache && s.cpus.app.cache) {
      var t := ActiveTask(s).value;
      var c := s.cpuOf[t];
      SuspendedSides(s.Cpu(c), s.Cpu(Other(c)), t, s.place[t], s.canStart, s.complete);
    }
  }

  /** With a cache suspended, the one scheduler is the active task's and the other the block function's, and interrupts
      are masked on both CPUs. */
  lemma SuspendedSides(x: CpuState, y: CpuState, t: nat, p: Place, canStart: bool, complete: bool)
    requires OwnSide(x, t, p) && OtherSide(y, canStart, complete, p) && (!x.cache || !y.cache)
    ensures x.suspendedBy == Some(Task(t)) && y.suspendedBy == Some(Ipc) && x.masked && y.masked && y.callback == Spin
  {
    SuspendedPlace(x, y, t, p, canStart, complete);
    hide Place.Number;
  }

  lemma SuspendedPlace(x: CpuState, y: CpuState, t: nat, p: Place, canStart: bool, complete: bool)
    requires OwnSide(x, t, p) && OtherSide(y, canStart, complete, p) && (!x.cache || !y.cache)
    ensures p.In(Masking, Resuming) && p.In(DisablingOwn, Unmasking) && p.In(Suspending, Completing) && p != Starting
  {
    hide Passive, Leaving;
  }

  /** None of the assertions in the two functions ever fails. */
  lemma AssertionsHold(run: seq<State>, i: nat)
    requires IsRun(run) && i < |run|
    ensures !run[i].failed
  {
    RunInv(run, i);
  }

  /** A spinning CPU that is told to go on is not told otherwise before it has seen it. */
  lemma CompleteIsSeen(run: seq<State>, i: nat, c: Cpu)
    requires IsRun(run) && 0 < i < |run| && run[i - 1].complete && run[i - 1].Cpu(c).callback == Spin
    ensures run[i].complete || run[i].Cpu(c).callback != Spin
  {
    RunInv(run, i - 1);
    hide Inv, Enabled, After, Init;
    assert StepAt(run, i);
    var step :| Enabled(run[i - 1], step) && run[i] == After(run[i - 1], step);
    StepKeepsComplete(run[i - 1], step, c);
  }

  lemma StepKeepsComplete(s: State, step: Step, c: Cpu)
    requires Inv(s) && Enabled(s, step) && s.complete && s.Cpu(c).callback == Spin
    ensures After(s, step).complete || After(s, step).Cpu(c).callback != Spin
  {
    SpinningAlone(s, c);
    hide Inv, Statement, AfterAdvance, BlockStatement;
    match step {
      case Advance(t) =>
        AdvanceSides(s, t);
        KeepsComplete(s, s.cpuOf[t], s.place[t]);
      case _ =>
    }
  }

  lemma KeepsComplete(s: State, c: Cpu, p: Place)
    ensures s.complete ==> SharedStatement(s, c, p).complete
  {}

  /** While one CPU still spins in a completed operation, the other is not about to clear the flag. */
  lemma SpinningAlone(s: State, c: Cpu)
    requires Inv(s) && s.Cpu(c).callback == Spin && s.complete
    ensures s.Cpu(Other(c)).callback != ClearComplete
  {
    match ActiveTask(s) {
      case None =>
      case Some(t) =>
        hide OtherSide, Quiet;
        assert s.cpuOf[t] == Other(c);
    }
  }

  // ---------------------------------------------------------------------------------------------
  // Progress
  // ---------------------------------------------------------------------------------------------

  function CallbackRank(x: CpuState): nat {
    (if x.requested then 20 else 0) +
    match x.callback
    case Waiting => 0 case Foreign => 1 case Suspend => 9 case Mask => 8 case ClearComplete => 7 case SetStart => 6
    case Spin => 5 case RestoreCache => 4 case Unmask => 3 case Resume => 2
  }

  /** How much is left to do for the operation in progress and the one before. */
  function Rank(s: State): nat {
    (match ActiveTask(s) case None => 0 case Some(t) => 100 * (20 - s.place[t].Number()))
    + CallbackRank(s.cpus.pro) + CallbackRank(s.cpus.app)
  }

  predicate AtRest(s: State) {
    ActiveTask(s) == None && s.cpus.pro.callback == Waiting && s.cpus.app.callback == Waiting
  }

  /** The step of the protocol that can be taken next. */
  function NextStep(s: State): Step {
    match ActiveTask(s)
    case None =>
      var c := if s.cpus.pro.callback != Waiting then PRO else APP;
      if s.Cpu(c).callback == Foreign then OtherReturn(c) else Serve(c)
    case Some(t) =>
      if t >= |s.cpuOf| then Serve(PRO) else
      var o := Other(s.cpuOf[t]);
      if s.place[t] != Starting || s.canStart then Advance(t)
      else if s.Cpu(o).callback == Foreign then OtherReturn(o) else Serve(o)
  }

  /** There is no deadlock: unless all is at rest, some step of the protocol is enabled and brings its end nearer. */
  lemma Progress(s: State)
    requires Inv(s) && !AtRest(s)
    ensures Enabled(s, NextStep(s)) && Rank(After(s, NextStep(s))) < Rank(s)
  {
    match ActiveTask(s) {
      case None =>
        QuietProgress(s);
      case Some(t) =>
        if s.place[t] != Starting || s.canStart {
          AdvanceEnabled(s, t);
          AdvanceRank(s, t);
        } else {
          StartingProgress(s, t);
        }
    }
  }

  lemma QuietProgress(s: State)
    requires Inv(s) && ActiveTask(s) == None && !AtRest(s)
    ensures Enabled(s, NextStep(s)) && Rank(After(s, NextStep(s))) < Rank(s)
  {
    var s' := After(s, NextStep(s));
    assert ActiveTask(s') == None;
  }

  lemma AdvanceEnabled(s: State, t: nat)
    requires Inv(s) && ActiveTask(s) == Some(t) && (s.place[t] == Starting ==> s.canStart)
    ensures Enabled(s, Advance(t))
  {}

  lemma AdvanceRank(s: State, t: nat)
    requires Inv(s) && ActiveTask(s) == Some(t) && Enabled(s, Advance(t))
    ensures Rank(After(s, Advance(t))) < Rank(s)
  {
    hide Inv, OwnSide, OtherSide, Enabled, SharedStatement, Statement;
    InvParts(s);
    assert IsTask(s, t) by { MayAdvance(s, t); }
    var c, p := s.cpuOf[t], s.place[t];
    LocksKept(s, t);
    ActiveAfter(s, t);
    AdvanceSides(s, t);
    StatementRank(s.Cpu(c), s.Cpu(Other(c)), t, p);
  }

  lemma MayAdvance(s: State, t: nat)
    requires Enabled(s, Advance(t))
    ensures IsTask(s, t)
  {}

  lemma InvParts(s: State)
    requires Inv(s)
    ensures Locks(s) && Consistent(s)
  {}

  lemma StatementRank(x: CpuState, y: CpuState, t: nat, p: Place)
    requires p.Active()
    ensures CallbackRank(OwnStatement(x, t, p)) == CallbackRank(x)
    ensures CallbackRank(OtherStatement(y, p)) <= CallbackRank(y) + 20
    ensures p.Next().Number() == (if p == Unlocking then 0 else p.Number() + 1)
  {}

  lemma StartingProgress(s: State, t: nat)
    requires Inv(s) && ActiveTask(s) == Some(t) && s.place[t] == Starting && !s.canStart
    ensures Enabled(s, NextStep(s)) && Rank(After(s, NextStep(s))) < Rank(s)
  {
    var o := Other(s.cpuOf[t]);
    var s' := After(s, NextStep(s));
    assert ActiveTask(s') == Some(t);
    assert s'.Cpu(s.cpuOf[t]) == s.Cpu(s.cpuOf[t]);
  }

  lemma ExtendRun(run: seq<State>, next: State)
    requires IsRun(run) && Successor(run[|run| - 1], next)
    ensures IsRun(run + [next])
  {
    hide Successor, Init;
    var more := run + [next];
    forall i | 0 < i < |more| ensures StepAt(more, i) {
      if i < |run| {
        assert StepAt(run, i);
      }
    }
  }

  /** From every state of every run the operation in progress can be brought to its end. */
  lemma {:induction false} CanComeToRest(run: seq<State>) returns (more: seq<State>)
    requires IsRun(run)
    ensures IsRun(more) && run <= more && AtRest(more[|more| - 1])
    decreases Rank(run[|run| - 1])
  {
    hide Inv, Enabled, After, Rank, NextStep;
    var s := run[|run| - 1];
    if AtRest(s) {
      more := run;
    } else {
      RunInv(run, |run| - 1);
      Progress(s);
      var next := After(s, NextStep(s));
      assert Successor(s, next);
      ExtendRun(run, next);
      more := CanComeToRest(run + [next]);
    }
  }

  /** The next step of the protocol brings the active task one place on, or leaves it where it waits. */
  lemma NextStepKeeps(s: State, t: nat)
    requires Inv(s) && ActiveTask(s) == Some(t) && s.place[t].In(Checking, DisablingOther) && Enabled(s, NextStep(s))
    ensures var s' := After(s, NextStep(s));
            && ActiveTask(s') == Some(t) && |s'.place| == |s.place|
            && (s'.place[t] == s.place[t] || s'.place[t] == s.place[t].Next())
  {
    hide OwnSide, OtherSide, Statement, BlockStatement;
    if NextStep(s) == Advance(t) {
      AdvanceMutex(s, t);
      NextIsActive(s.place[t]);
    }
  }

  /** A task that has the lock gets inside. */
  lemma {:induction false} GetsInside(run: seq<State>, t: nat) returns (more: seq<State>)
    requires IsRun(run) && t < |run[|run| - 1].place|
    requires ActiveTask(run[|run| - 1]) == Some(t) && run[|run| - 1].place[t].In(Checking, Inside)
    ensures IsRun(more) && run <= more && t < |more[|more| - 1].place| && more[|more| - 1].place[t] == Inside
    decreases Rank(run[|run| - 1])
  {
    hide Inv, Enabled, After, Rank, NextStep;
    var s := run[|run| - 1];
    if s.place[t] == Inside {
      more := run;
    } else {
      RunInv(run, |run| - 1);
      BeforeInside(s.place[t]);
      Progress(s);
      NextStepKeeps(s, t);
      var next := After(s, NextStep(s));
      assert Successor(s, next);
      ExtendRun(run, next);
      assert (run + [next])[|run|] == next;
      more := GetsInside(run + [next], t);
    }
  }

  lemma BeforeInside(p: Place)
    requires p.In(Checking, Inside) && p != Inside
    ensures p.In(Checking, DisablingOther) && p.Next().In(Checking, Inside)
  {}

  /** Operations do happen: from the initial state every task can get inside. */
  lemma InsideIsReachable(s: State, t: nat) returns (run: seq<State>)
    requires Init(s) && t < |s.place|
    ensures IsRun(run) && run[0] == s && t < |run[|run| - 1].place| && run[|run| - 1].place[t] == Inside
  {
    hide Statement, OwnSide, OtherSide;
    assert s.Cpu(s.cpuOf[t]).suspendedBy == None;
    AdvanceMutex(s, t);
    AdvanceSides(s, t);
    var locking := After(s, Advance(t));
    assert Enabled(locking, Advance(t));
    AdvanceMutex(locking, t);
    var checking := After(locking, Advance(t));
    assert Successor(s, locking) && Successor(locking, checking);
    ExtendRun([s], locking);
    ExtendRun([s] + [locking], checking);
    run := GetsInside([s] + [locking] + [checking], t);
    assert run[0] == ([s] + [locking] + [checking])[0];
  }
}
