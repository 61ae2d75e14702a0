/**
 Labelling one vnode: vnode_label and vnode_relabel run by any number of threads.
 Each step below is one statement of the source, so every interleaving is a schedule of steps.
 A thread that wants the vnode lock while another holds it does not move.
 */
module VnodeLabel {
  import opened Base

  const EWOULDBLOCK := 35

  datatype Pc =
    // vnode_label
    | FastCheck     // 62: look at VL_LABELED without the lock
    | WantLock      // 65
    | Revalidate    // 72, lock held
    | Decide        // 77, lock held
    | DropForWork   // 81, lock held, VL_LABEL is ours
    | CheckAlloc    // 83
    | Alloc         // 84
    | Work          // 86-90: the policies label the vnode and report an error or 0
    | WantFinish    // 92
    | SetLabeled    // 94, lock held
    | ClearLabel    // 96, lock held
    | CheckWait     // 98, lock held
    | ClearWait     // 99, lock held
    | Wakeup        // 100, lock held
    | TestBusy      // 108, lock held
    | SetWait       // 109, lock held
    | GoToSleep     // 111, lock held; msleep drops it
    | Sleeping
    | WantRecheck   // 113
    | CheckTimeout  // 115, lock held
    | Unlock        // 122, lock held
    // vnode_relabel
    | RelabelWant   // the caller takes the lock
    | RelabelTest   // 141, lock held
    | RelabelSetWait // 142, lock held
    | RelabelSleep  // 143, lock held; msleep drops it
    | RelabelSleeping
    | RelabelWoken  // msleep takes the lock again
    | RelabelClear  // 147, lock held
    | RelabelUnlock // the caller drops the lock
    | Done

  datatype Thread = Thread(pc: Pc, error: int)

  /** The vnode: what all threads see. */
  datatype Vnode = Vnode(
    vlLabel: bool,      // VL_LABEL
    vlLabeled: bool,    // VL_LABELED
    vlWait: bool,       // VL_LABELWAIT
    hasLabel: bool,     // v_label != NULL
    allocs: nat,        // how often v_label was allocated
    lock: Option<nat>)

  datatype System = System(v: Vnode, threads: seq<Thread>)

  /** What the outside decides at a step: the policies' verdict, VNCACHEABLE, and whether the sleep times out. */
  datatype Env = Env(error: int, cacheable: bool, timeout: bool)

  predicate Holds(pc: Pc) {
    pc.Revalidate? || pc.Decide? || pc.DropForWork? || pc.SetLabeled? || pc.ClearLabel? || pc.CheckWait?
    || pc.ClearWait? || pc.Wakeup? || pc.TestBusy? || pc.SetWait? || pc.GoToSleep? || pc.CheckTimeout? || pc.Unlock?
    || pc.RelabelTest? || pc.RelabelSetWait? || pc.RelabelSleep? || pc.RelabelClear? || pc.RelabelUnlock?
  }

  /** The thread has set VL_LABEL and has not cleared it yet. */
  predicate Labelling(pc: Pc) {
    pc.DropForWork? || pc.CheckAlloc? || pc.Alloc? || pc.Work? || pc.WantFinish? || pc.SetLabeled? || pc.ClearLabel?
  }

  predicate Asleep(pc: Pc) {
    pc.Sleeping? || pc.RelabelSleeping?
  }

  /** wakeup(&vp->v_label): every sleeper becomes runnable. */
  function Awaken(threads: seq<Thread>): (r: seq<Thread>)
    ensures |r| == |threads|
    ensures forall i :: 0 <= i < |r| ==> r[i] == AwakenOne(threads[i])
  {
    seq(|threads|, i requires 0 <= i < |threads| => AwakenOne(threads[i]))
  }

  function AwakenOne(th: Thread): Thread {
    match th.pc
    case Sleeping => Thread(WantRecheck, 0)
    case RelabelSleeping => Thread(RelabelWoken, th.error)
    case _ => th
  }

  function TakeLock(v: Vnode, th: Thread, t: nat, pc: Pc): (Vnode, Thread) {
    if v.lock == None then (v.(lock := Some(t)), th.(pc := pc)) else (v, th)
  }

  /** One statement of thread t, in terms of the vnode and the thread alone. */
  function Act(v: Vnode, th: Thread, t: nat, env: Env): (Vnode, Thread) {
    match th.pc
    case FastCheck => (v, if v.vlLabeled then Thread(Done, 0) else th.(pc := WantLock))
    case WantLock => TakeLock(v, th, t, Revalidate)
    case Revalidate => (v, th.(pc := if v.vlLabeled then Unlock else Decide))
    case Decide =>
      if v.vlLabel then (v, th.(pc := TestBusy)) else (v.(vlLabel := true), th.(pc := DropForWork))
    case DropForWork => (v.(lock := None), th.(pc := CheckAlloc))
    case CheckAlloc => (v, th.(pc := if v.hasLabel then Work else Alloc))
    case Alloc => (v.(hasLabel := true, allocs := v.allocs + 1), th.(pc := Work))
    case Work => (v, Thread(WantFinish, env.error))
    case WantFinish => TakeLock(v, th, t, SetLabeled)
    case SetLabeled =>
      (v.(vlLabeled := v.vlLabeled || (th.error == 0 && env.cacheable)), th.(pc := ClearLabel))
    case ClearLabel => (v.(vlLabel := false), th.(pc := CheckWait))
    case CheckWait => (v, th.(pc := if v.vlWait then ClearWait else Unlock))
    case ClearWait => (v.(vlWait := false), th.(pc := Wakeup))
    case Wakeup => (v, th.(pc := Unlock))
    case TestBusy => (v, th.(pc := if v.vlLabel then SetWait else Unlock))
    case SetWait => (v.(vlWait := true), th.(pc := GoToSleep))
    case GoToSleep => (v.(lock := None), th.(pc := Sleeping))
    case Sleeping => (v, if env.timeout then Thread(WantRecheck, EWOULDBLOCK) else th)
    case WantRecheck => TakeLock(v, th, t, CheckTimeout)
    case CheckTimeout => (v, th.(pc := if th.error == EWOULDBLOCK then Unlock else TestBusy))
    case Unlock => (v.(lock := None), th.(pc := Done))
    case RelabelWant => TakeLock(v, th, t, RelabelTest)
    case RelabelTest => (v, th.(pc := if v.vlLabel then RelabelSetWait else RelabelClear))
    case RelabelSetWait => (v.(vlWait := true), th.(pc := RelabelSleep))
    case RelabelSleep => (v.(lock := None), th.(pc := RelabelSleeping))
    case RelabelSleeping => (v, th)
    case RelabelWoken => TakeLock(v, th, t, RelabelTest)
    case RelabelClear => (v.(vlLabeled := false), th.(pc := RelabelUnlock))
    case RelabelUnlock => (v.(lock := None), th.(pc := Done))
    case Done => (v, th)
  }

  /** One statement of thread t in the whole system. */
  function Next(s: System, t: nat, env: Env): (s': System)
    requires t < |s.threads|
    ensures |s'.threads| == |s.threads|
  {
    var (v, th) := Act(s.v, s.threads[t], t, env);
    var threads := s.threads[t := th];
    System(v, if s.threads[t].pc.Wakeup? then Awaken(threads) else threads)
  }

  /** Any number of threads about to call either function on a vnode nobody has touched. */
  predicate Initial(s: System) {
    && !s.v.vlLabel && !s.v.vlLabeled && !s.v.vlWait && !s.v.hasLabel && s.v.allocs == 0 && s.v.lock == None
    && forall i :: 0 <= i < |s.threads| ==>
         s.threads[i] == Thread(FastCheck, 0) || s.threads[i] == Thread(RelabelWant, 0)
  }

  datatype Move = Move(thread: nat, env: Env)

  /** The state after a schedule; moves of threads that do not exist are skipped. */
  function Run(s: System, schedule: seq<Move>): System
    decreases |schedule|
  {
    if schedule == [] then s
    else
      var m := schedule[0];
      Run(if m.thread < |s.threads| then Next(s, m.thread, m.env) else s, schedule[1..])
  }

  /** The lock is held exactly by the thread that stands at a statement that needs it. */
  predicate LockInv(s: System) {
    && (s.v.lock.Some? ==> s.v.lock.value < |s.threads|)
    && forall i :: 0 <= i < |s.threads| ==> (Holds(s.threads[i].pc) <==> s.v.lock == Some(i))
  }

  /** VL_LABEL is owned by exactly one thread or by none. */
  ghost predicate OwnerInv(s: System) {
    && (forall i :: 0 <= i < |s.threads| && Labelling(s.threads[i].pc) ==> s.v.vlLabel)
    && (forall i, j ::
          (0 <= i < |s.threads| && 0 <= j < |s.threads| && Labelling(s.threads[i].pc) && Labelling(s.threads[j].pc))
              ==> i == j)
    && (s.v.vlLabel ==> exists i :: 0 <= i < |s.threads| && Labelling(s.threads[i].pc))
  }

  /** Where the lock holder stands, if there is one. */
  function HolderPc(s: System): Option<Pc>
    requires LockInv(s)
  {
    if s.v.lock.Some? then Some(s.threads[s.v.lock.value].pc) else None
  }

  predicate HolderIn(holder: Option<Pc>, pcs: set<Pc>) {
    holder.Some? && holder.value in pcs
  }

  predicate FlagsOk(v: Vnode, holder: Option<Pc>) {
    && (v.vlLabel && v.vlLabeled ==> HolderIn(holder, {ClearLabel}))
    && (v.vlWait && !v.vlLabel ==> HolderIn(holder, {CheckWait, ClearWait}))
    && (HolderIn(holder, {CheckWait, ClearWait, Wakeup, RelabelClear}) ==> !v.vlLabel)
    && (HolderIn(holder, {Decide}) ==> !v.vlLabeled)
    && (HolderIn(holder, {SetWait, RelabelSetWait}) ==> v.vlLabel)
    && (HolderIn(holder, {GoToSleep, RelabelSleep}) ==> v.vlLabel && v.vlWait)
  }

  /** A wakeup is owed: VL_LABELWAIT is set for the labelling thread to see, or wakeup is about to run. */
  predicate WakeupOwed(v: Vnode, holder: Option<Pc>) {
    (v.vlWait && (v.vlLabel || HolderIn(holder, {CheckWait, ClearWait}))) || HolderIn(holder, {Wakeup})
  }

  predicate SleepInv(s: System)
    requires LockInv(s)
  {
    forall i :: 0 <= i < |s.threads| && Asleep(s.threads[i].pc) ==> WakeupOwed(s.v, HolderPc(s))
  }

  predicate AllocInv(s: System) {
    && s.v.allocs == (if s.v.hasLabel then 1 else 0)
    && forall i :: 0 <= i < |s.threads| && s.threads[i].pc.Alloc? ==> !s.v.hasLabel
  }

  ghost predicate Inv(s: System) {
    LockInv(s) && OwnerInv(s) && FlagsOk(s.v, HolderPc(s)) && SleepInv(s) && AllocInv(s)
  }

  lemma InitialInv(s: System)
    requires Initial(s)
    ensures Inv(s)
  {
  }

  lemma AwakenKeeps(th: Thread)
    ensures Holds(AwakenOne(th).pc) == Holds(th.pc)
    ensures Labelling(AwakenOne(th).pc) == Labelling(th.pc)
    ensures AwakenOne(th).pc.Alloc? == th.pc.Alloc?
    ensures !Asleep(AwakenOne(th).pc)
    ensures !Asleep(th.pc) ==> AwakenOne(th) == th
  {
  }

  /** A step moves its own thread; only wakeup moves others, from sleep to the lock queue. */
  lemma OthersKeep(s: System, t: nat, env: Env, i: nat)
    requires t < |s.threads| && i < |s.threads| && i != t
    ensures var s' := Next(s, t, env);
            && Holds(s'.threads[i].pc) == Holds(s.threads[i].pc)
            && Labelling(s'.threads[i].pc) == Labelling(s.threads[i].pc)
            && s'.threads[i].pc.Alloc? == s.threads[i].pc.Alloc?
            && (Asleep(s'.threads[i].pc) <==> Asleep(s.threads[i].pc) && !s.threads[t].pc.Wakeup?)
            && (!Asleep(s.threads[i].pc) ==> s'.threads[i] == s.threads[i])
  {
    AwakenKeeps(s.threads[i]);
  }

  lemma OwnMove(s: System, t: nat, env: Env)
    requires t < |s.threads|
    ensures Next(s, t, env).v == Act(s.v, s.threads[t], t, env).0
    ensures Next(s, t, env).threads[t] == Act(s.v, s.threads[t], t, env).1
  {
    if s.threads[t].pc.Wakeup? {
      assert Act(s.v, s.threads[t], t, env).1.pc == Unlock;
    }
  }

  /** What a step does to the lock, seen from its own thread. */
  lemma OwnLock(v: Vnode, th: Thread, t: nat, env: Env)
    requires Holds(th.pc) <==> v.lock == Some(t)
    ensures var (v', th') := Act(v, th, t, env);
            && (Holds(th.pc) ==> v'.lock == if Holds(th'.pc) then Some(t) else None)
            && (!Holds(th.pc) ==> if Holds(th'.pc) then v.lock == None && v'.lock == Some(t) else v'.lock == v.lock)
  {
  }

  lemma NextLock(s: System, t: nat, env: Env)
    requires t < |s.threads| && LockInv(s)
    ensures LockInv(Next(s, t, env))
  {
    OwnMove(s, t, env);
    OwnLock(s.v, s.threads[t], t, env);
    var s' := Next(s, t, env);
    forall i | 0 <= i < |s'.threads| ensures Holds(s'.threads[i].pc) <==> s'.v.lock == Some(i) {
      if i != t { OthersKeep(s, t, env, i); }
    }
  }

  /** What a step does to VL_LABEL and to its own ownership of it. */
  lemma OwnOwner(v: Vnode, th: Thread, t: nat, env: Env)
    requires Labelling(th.pc) ==> v.vlLabel
    ensures var (v', th') := Act(v, th, t, env);
            && (Labelling(th.pc) == Labelling(th'.pc) ==> v'.vlLabel == v.vlLabel)
            && (!Labelling(th.pc) && Labelling(th'.pc) ==> !v.vlLabel && v'.vlLabel)
            && (Labelling(th.pc) && !Labelling(th'.pc) ==> !v'.vlLabel)
  {
  }

  lemma NextOwner(s: System, t: nat, env: Env)
    requires t < |s.threads| && OwnerInv(s)
    ensures OwnerInv(Next(s, t, env))
  {
    OwnMove(s, t, env);
    OwnOwner(s.v, s.threads[t], t, env);
    var s' := Next(s, t, env);
    forall i | 0 <= i < |s.threads| && i != t ensures Labelling(s'.threads[i].pc) == Labelling(s.threads[i].pc) {
      OthersKeep(s, t, env, i);
    }
    if s'.v.vlLabel && !Labelling(s'.threads[t].pc) {
      var i :| 0 <= i < |s.threads| && Labelling(s.threads[i].pc);
      assert i != t && Labelling(s'.threads[i].pc);
    }
  }

  /** Where the holder stands after thread t has moved. */
  lemma NextHolder(s: System, t: nat, env: Env)
    requires t < |s.threads| && LockInv(s)
    ensures var s', th' := Next(s, t, env), Act(s.v, s.threads[t], t, env).1;
            && LockInv(s')
            && (Holds(s.threads[t].pc) || Holds(th'.pc) ==>
                  HolderPc(s') == if Holds(th'.pc) then Some(th'.pc) else None)
            && (!Holds(s.threads[t].pc) && !Holds(th'.pc) ==> HolderPc(s') == HolderPc(s))
            && (Holds(s.threads[t].pc) ==> HolderPc(s) == Some(s.threads[t].pc))
            && (!Holds(s.threads[t].pc) && Holds(th'.pc) ==> HolderPc(s) == None)
  {
    NextLock(s, t, env);
    OwnMove(s, t, env);
    OwnLock(s.v, s.threads[t], t, env);
    if s.v.lock.Some? && s.v.lock.value != t {
      OthersKeep(s, t, env, s.v.lock.value);
    }
  }

  lemma HolderMoves(v: Vnode, th: Thread, t: nat, env: Env)
    requires Holds(th.pc) && FlagsOk(v, Some(th.pc))
    ensures var (v', th') := Act(v, th, t, env);
            FlagsOk(v', if Holds(th'.pc) then Some(th'.pc) else None)
  {
  }

  lemma OutsiderMoves(v: Vnode, th: Thread, t: nat, env: Env, holder: Option<Pc>)
    requires !Holds(th.pc) && FlagsOk(v, holder)
    requires Holds(Act(v, th, t, env).1.pc) ==> holder == None
    ensures var (v', th') := Act(v, th, t, env);
            && v'.vlLabel == v.vlLabel && v'.vlWait == v.vlWait && v'.vlLabeled == v.vlLabeled
            && FlagsOk(v', if Holds(th'.pc) then Some(th'.pc) else holder)
  {
  }

  lemma NextFlags(s: System, t: nat, env: Env)
    requires t < |s.threads| && LockInv(s) && FlagsOk(s.v, HolderPc(s))
    ensures LockInv(Next(s, t, env)) && FlagsOk(Next(s, t, env).v, HolderPc(Next(s, t, env)))
  {
    NextHolder(s, t, env);
    OwnMove(s, t, env);
    if Holds(s.threads[t].pc) {
      HolderMoves(s.v, s.threads[t], t, env);
    } else {
      OutsiderMoves(s.v, s.threads[t], t, env, HolderPc(s));
    }
  }

  /** The debt is kept until wakeup runs; whoever falls asleep leaves it. */
  lemma HolderPays(v: Vnode, th: Thread, t: nat, env: Env)
    requires Holds(th.pc) && !th.pc.Wakeup? && FlagsOk(v, Some(th.pc))
    ensures var (v', th') := Act(v, th, t, env);
            var holder' := if Holds(th'.pc) then Some(th'.pc) else None;
            && (WakeupOwed(v, Some(th.pc)) ==> WakeupOwed(v', holder'))
            && (Asleep(th'.pc) ==> WakeupOwed(v', holder'))
  {
  }

  lemma OutsiderPays(v: Vnode, th: Thread, t: nat, env: Env, holder: Option<Pc>)
    requires !Holds(th.pc) && WakeupOwed(v, holder)
    requires Holds(Act(v, th, t, env).1.pc) ==> holder == None
    ensures var (v', th') := Act(v, th, t, env);
            WakeupOwed(v', if Holds(th'.pc) then Some(th'.pc) else holder)
  {
  }

  lemma OutsiderStaysAwake(v: Vnode, th: Thread, t: nat, env: Env)
    requires !Holds(th.pc)
    ensures Asleep(Act(v, th, t, env).1.pc) ==> Asleep(th.pc)
  {
  }

  lemma NextSleep(s: System, t: nat, env: Env)
    requires t < |s.threads| && LockInv(s) && FlagsOk(s.v, HolderPc(s)) && SleepInv(s)
    ensures LockInv(Next(s, t, env)) && SleepInv(Next(s, t, env))
  {
    NextHolder(s, t, env);
    OwnMove(s, t, env);
    var s' := Next(s, t, env);
    forall i | 0 <= i < |s.threads| && Asleep(s'.threads[i].pc) ensures WakeupOwed(s'.v, HolderPc(s')) {
      if i != t {
        OthersKeep(s, t, env, i);
      }
      if Holds(s.threads[t].pc) {
        if !s.threads[t].pc.Wakeup? { HolderPays(s.v, s.threads[t], t, env); }
      } else {
        OutsiderStaysAwake(s.v, s.threads[t], t, env);
        OutsiderPays(s.v, s.threads[t], t, env, HolderPc(s));
      }
    }
  }

  lemma OwnAlloc(v: Vnode, th: Thread, t: nat, env: Env)
    requires th.pc.Alloc? ==> !v.hasLabel
    requires v.allocs == (if v.hasLabel then 1 else 0)
    ensures var (v', th') := Act(v, th, t, env);
            && v'.allocs == (if v'.hasLabel then 1 else 0)
            && (th'.pc.Alloc? ==> !v'.hasLabel)
            && (!th.pc.Alloc? ==> v'.hasLabel == v.hasLabel)
  {
  }

  lemma NextAlloc(s: System, t: nat, env: Env)
    requires t < |s.threads| && OwnerInv(s) && AllocInv(s)
    ensures AllocInv(Next(s, t, env))
  {
    OwnMove(s, t, env);
    OwnAlloc(s.v, s.threads[t], t, env);
    var s' := Next(s, t, env);
    forall i | 0 <= i < |s.threads| && s'.threads[i].pc.Alloc? ensures !s'.v.hasLabel {
      if i != t {
        OthersKeep(s, t, env, i);
        assert Labelling(s.threads[i].pc);
      }
    }
  }

  /** The whole invariant survives any statement of any thread. */
  lemma NextInv(s: System, t: nat, env: Env)
    requires t < |s.threads| && Inv(s)
    ensures Inv(Next(s, t, env))
  {
    NextOwner(s, t, env);
    NextFlags(s, t, env);
    NextSleep(s, t, env);
    NextAlloc(s, t, env);
  }

  lemma {:induction false} RunInv(s: System, schedule: seq<Move>)
    requires Inv(s)
    ensures Inv(Run(s, schedule))
    decreases |schedule|
  {
    if schedule != [] {
      var m := schedule[0];
      if m.thread < |s.threads| {
        NextInv(s, m.thread, m.env);
      }
      RunInv(if m.thread < |s.threads| then Next(s, m.thread, m.env) else s, schedule[1..]);
    }
  }

  /**
   After any schedule: at most one thread is labelling; while the lock is free VL_LABEL and VL_LABELED
   exclude each other and VL_LABELWAIT implies VL_LABEL; a sleeping thread then implies both VL_LABEL and
   VL_LABELWAIT, so some labelling thread is still there to wake it; and v_label is allocated at most once.
   */
  lemma EveryRunIsSafe(s0: System, schedule: seq<Move>)
    requires Initial(s0)
    ensures var s := Run(s0, schedule);
            && (forall i, j ::
                  (0 <= i < |s.threads| && 0 <= j < |s.threads|
                   && Labelling(s.threads[i].pc) && Labelling(s.threads[j].pc)) ==> i == j)
            && (s.v.lock == None ==> !(s.v.vlLabel && s.v.vlLabeled) && (s.v.vlWait ==> s.v.vlLabel))
            && (s.v.lock == None ==>
                  forall i :: 0 <= i < |s.threads| && Asleep(s.threads[i].pc) ==> s.v.vlLabel && s.v.vlWait)
            && (s.v.lock == None && (exists i :: 0 <= i < |s.threads| && Asleep(s.threads[i].pc)) ==>
                  exists j :: 0 <= j < |s.threads| && Labelling(s.threads[j].pc))
            && s.v.allocs <= 1
  {
    InitialInv(s0);
    RunInv(s0, schedule);
  }

  /** Thread i is awake and its next statement changes the state, whatever the outside decides. */
  ghost predicate CanMove(s: System, i: nat) {
    i < |s.threads| && !Asleep(s.threads[i].pc) && forall env :: Next(s, i, env) != s
  }

  lemma AwakeCanMove(s: System, i: nat)
    requires i < |s.threads| && !Asleep(s.threads[i].pc) && !s.threads[i].pc.Done?
    requires s.v.lock == None || Holds(s.threads[i].pc)
    ensures CanMove(s, i)
  {
    forall env
      ensures Next(s, i, env) != s
    {
      var (v, th) := Act(s.v, s.threads[i], i, env);
      assert th.pc != s.threads[i].pc && !Asleep(s.threads[i].pc);
      assert Next(s, i, env).threads[i] == (if s.threads[i].pc.Wakeup? then AwakenOne(th) else th);
    }
  }

  /** No deadlock, even if no sleep ever times out: while some thread has not finished, some thread that is awake can
      move. */
  lemma SomebodyCanMove(s0: System, schedule: seq<Move>)
    requires Initial(s0)
    ensures var s := Run(s0, schedule);
      (exists i :: 0 <= i < |s.threads| && !s.threads[i].pc.Done?) ==> exists i :: CanMove(s, i)
  {
    InitialInv(s0);
    RunInv(s0, schedule);
    var s := Run(s0, schedule);
    if s.v.lock.Some? {
      AwakeCanMove(s, s.v.lock.value);
    } else if i :| 0 <= i < |s.threads| && !s.threads[i].pc.Done? {
      if Asleep(s.threads[i].pc) {
        var j :| 0 <= j < |s.threads| && Labelling(s.threads[j].pc);
        AwakeCanMove(s, j);
      } else {
        AwakeCanMove(s, i);
      }
    }
  }

  /** n statements of thread t with nobody interfering. */
  function Solo(s: System, t: nat, n: nat, env: Env): (s': System)
    requires t < |s.threads|
    ensures |s'.threads| == |s.threads|
    decreases n
  {
    if n == 0 then s else Solo(Next(s, t, env), t, n - 1, env)
  }

  /** The state a finished labelling thread leaves. */
  ghost predicate AllAwake(s: System, s': System, t: nat) {
    && t < |s'.threads| == |s.threads|
    && s'.threads[t].pc == Done && s'.v.lock == None && !s'.v.vlLabel && !s'.v.vlWait
    && s'.v.vlLabeled == s.v.vlLabeled
    && forall i :: 0 <= i < |s.threads| ==> !Asleep(s'.threads[i].pc)
  }

  /** No wakeup is lost: when the labelling thread has finished, nobody is asleep and the flags are clear. */
  lemma FinishingWakesAll(s: System, t: nat, env: Env)
    requires Inv(s) && t < |s.threads| && s.threads[t].pc.ClearLabel?
    ensures exists n :: 3 <= n <= 5 && AllAwake(s, Solo(s, t, n, env), t)
  {
    SoloUnfolds(s, t, env);
    if s.v.vlWait {
      FinishingWithWaiters(s, t, env);
    } else {
      FinishingAlone(s, t, env);
    }
  }

  lemma FinishingWithWaiters(s: System, t: nat, env: Env)
    requires Inv(s) && t < |s.threads| && s.threads[t].pc.ClearLabel? && s.v.vlWait
    ensures AllAwake(s, Next(Next(Next(Next(Next(s, t, env), t, env), t, env), t, env), t, env), t)
  {
    var s3 := Next(Next(Next(s, t, env), t, env), t, env);
    FinishingReachesWakeup(s, t, env);
    var s4 := Next(s3, t, env);
    NextInv(s3, t, env);
    NextInv(s4, t, env);
    AwakeAfter(Next(s4, t, env), t);
  }

  lemma FinishingReachesWakeup(s: System, t: nat, env: Env)
    requires Inv(s) && t < |s.threads| && s.threads[t].pc.ClearLabel? && s.v.vlWait
    ensures var s3 := Next(Next(Next(s, t, env), t, env), t, env);
      && Inv(s3) && |s3.threads| == |s.threads| && s3.threads[t].pc == Wakeup
      && s3.v == s.v.(vlLabel := false, vlWait := false)
  {
    var s1 := Next(s, t, env);
    var s2 := Next(s1, t, env);
    NextInv(s, t, env);
    NextInv(s1, t, env);
    NextInv(s2, t, env);
  }

  lemma FinishingAlone(s: System, t: nat, env: Env)
    requires Inv(s) && t < |s.threads| && s.threads[t].pc.ClearLabel? && !s.v.vlWait
    ensures AllAwake(s, Next(Next(Next(s, t, env), t, env), t, env), t)
  {
    var s1 := Next(s, t, env);
    var s2 := Next(s1, t, env);
    NextInv(s, t, env);
    NextInv(s1, t, env);
    NextInv(s2, t, env);
    AwakeAfter(Next(s2, t, env), t);
  }

  lemma SoloUnfolds(s: System, t: nat, env: Env)
    requires t < |s.threads|
    ensures var s3 := Next(Next(Next(s, t, env), t, env), t, env);
            Solo(s, t, 3, env) == s3 && Solo(s, t, 5, env) == Next(Next(s3, t, env), t, env)
  {
    var s1 := Next(s, t, env);
    var s2 := Next(s1, t, env);
    var s3 := Next(s2, t, env);
    assert Solo(s3, t, 2, env) == Solo(Next(s3, t, env), t, 1, env);
    assert Solo(s2, t, 3, env) == Solo(s3, t, 2, env);
    assert Solo(s1, t, 4, env) == Solo(s2, t, 3, env);
    assert Solo(s, t, 5, env) == Solo(s1, t, 4, env);
    assert Solo(s2, t, 1, env) == Solo(s3, t, 0, env);
    assert Solo(s1, t, 2, env) == Solo(s2, t, 1, env);
  }

  lemma AwakeAfter(s: System, t: nat)
    requires Inv(s) && !s.v.vlLabel && s.v.lock == None
    ensures forall i :: 0 <= i < |s.threads| ==> !Asleep(s.threads[i].pc)
  {
  }
}
