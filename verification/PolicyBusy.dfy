/**
 The mutex and busy count that guard the policy list after boot: readers of its dynamic part raise the
 count, registrars hold the mutex while the count is zero.  Each step is one statement of the source.
 */
module PolicyBusy {
  import opened Base

  datatype Pc =
    // mac_policy_list_busy
    | BusyWant      // 460
    | BusyRaise     // 461, lock held
    | BusyUnlock    // 462, lock held
    // mac_policy_list_conditional_busy
    | CondLook      // 470, without the lock
    | CondWant      // 473
    | CondTest      // 474, lock held
    | CondRaise     // 475, lock held
    | CondUnlock    // 479, lock held, the count was raised
    | CondLeave     // 479, lock held, nothing was raised
    // between busy and unbusy
    | Reading
    // mac_policy_list_unbusy
    | UnbusyWant    // 486
    | UnbusyLower   // 487, lock held
    | UnbusyTest    // 489, lock held
    | UnbusyWake    // 490, lock held
    | UnbusyUnlock  // 491, lock held
    // mac_policy_grab_exclusive
    | GrabWant      // 431
    | GrabTest      // 432, lock held
    | GrabSleep     // 433, lock held; the sleep drops it
    | Sleeping
    | GrabAgain     // 435
    | Exclusive     // the caller edits the list, lock held
    // mac_policy_release_exclusive
    | ReleaseUnlock // 453, lock held
    | ReleaseWake   // 454
    | Done

  /** `seen` is the edition of the table a reader found when it raised the count. */
  datatype Thread = Thread(pc: Pc, conditional: bool, seen: nat)

  datatype List = List(
    busy: int,          // mac_policy_busy
    numloaded: nat,
    staticmax: nat,
    edition: nat,       // grows with every edit of the list
    lock: Option<nat>)

  datatype System = System(l: List, threads: seq<Thread>)

  /** What a registrar does next inside its exclusive section: another edit, or leave. */
  datatype Env = Env(edit: bool, numloaded: nat, staticmax: nat)

  predicate Holds(pc: Pc) {
    pc.BusyRaise? || pc.BusyUnlock? || pc.CondTest? || pc.CondRaise? || pc.CondUnlock? || pc.CondLeave?
    || pc.UnbusyLower? || pc.UnbusyTest? || pc.UnbusyWake? || pc.UnbusyUnlock?
    || pc.GrabTest? || pc.GrabSleep? || pc.Exclusive? || pc.ReleaseUnlock?
  }

  /** Inside a dynamic section: the count has been raised and not yet lowered. */
  predicate Inside(pc: Pc) {
    pc.BusyUnlock? || pc.CondUnlock? || pc.Reading? || pc.UnbusyWant? || pc.UnbusyLower?
  }

  predicate Wakes(pc: Pc) {
    pc.UnbusyWake? || pc.ReleaseWake?
  }

  /** Inside unbusy with the count just lowered: when it is 0, a wakeup is what comes next. */
  predicate WakesNext(pc: Pc) {
    pc.UnbusyTest? || pc.UnbusyWake?
  }

  function AwakenOne(th: Thread): Thread {
    if th.pc.Sleeping? then th.(pc := GrabAgain) else th
  }

  function Awaken(threads: seq<Thread>): (r: seq<Thread>)
    ensures |r| == |threads|
    ensures forall i :: 0 <= i < |r| ==> r[i] == AwakenOne(threads[i])
  {
    seq(|threads|, i requires 0 <= i < |threads| => AwakenOne(threads[i]))
  }

  function TakeLock(l: List, th: Thread, t: nat, pc: Pc): (List, Thread) {
    if l.lock == None then (l.(lock := Some(t)), th.(pc := pc)) else (l, th)
  }

  /** One statement of thread t, in terms of the list and the thread alone. */
  function Act(l: List, th: Thread, t: nat, env: Env): (List, Thread) {
    match th.pc
    case BusyWant => TakeLock(l, th, t, BusyRaise)
    case BusyRaise => (l.(busy := l.busy + 1), Thread(BusyUnlock, false, l.edition))
    case BusyUnlock => (l.(lock := None), th.(pc := Reading))
    case CondLook => (l, th.(pc := if l.numloaded <= l.staticmax then Done else CondWant))
    case CondWant => TakeLock(l, th, t, CondTest)
    case CondTest => (l, th.(pc := if l.numloaded > l.staticmax then CondRaise else CondLeave))
    case CondRaise => (l.(busy := l.busy + 1), Thread(CondUnlock, true, l.edition))
    case CondUnlock => (l.(lock := None), th.(pc := Reading))
    case CondLeave => (l.(lock := None), th.(pc := Done))
    case Reading => (l, th.(pc := UnbusyWant))
    case UnbusyWant => TakeLock(l, th, t, UnbusyLower)
    case UnbusyLower => (l.(busy := l.busy - 1), th.(pc := UnbusyTest))
    case UnbusyTest => (l, th.(pc := if l.busy == 0 then UnbusyWake else UnbusyUnlock))
    case UnbusyWake => (l, th.(pc := UnbusyUnlock))
    case UnbusyUnlock => (l.(lock := None), th.(pc := Done))
    case GrabWant => TakeLock(l, th, t, GrabTest)
    case GrabTest => (l, th.(pc := if l.busy != 0 then GrabSleep else Exclusive))
    case GrabSleep => (l.(lock := None), th.(pc := Sleeping))
    case Sleeping => (l, th)
    case GrabAgain => TakeLock(l, th, t, GrabTest)
    case Exclusive =>
      if env.edit then (l.(numloaded := env.numloaded, staticmax := env.staticmax, edition := l.edition + 1), th)
      else (l, th.(pc := ReleaseUnlock))
    case ReleaseUnlock => (l.(lock := None), th.(pc := ReleaseWake))
    case ReleaseWake => (l, th.(pc := Done))
    case Done => (l, th)
  }

  function Next(s: System, t: nat, env: Env): (s': System)
    requires t < |s.threads|
    ensures |s'.threads| == |s.threads|
  {
    var (l, th) := Act(s.l, s.threads[t], t, env);
    var threads := s.threads[t := th];
    System(l, if Wakes(s.threads[t].pc) then Awaken(threads) else threads)
  }

  predicate Starting(th: Thread) {
    th.pc.BusyWant? || th.pc.CondLook? || th.pc.GrabWant?
  }

  predicate Initial(s: System) {
    s.l.busy == 0 && s.l.lock == None && forall i :: 0 <= i < |s.threads| ==> Starting(s.threads[i])
  }

  datatype Move = Move(thread: nat, env: Env)

  function Run(s: System, schedule: seq<Move>): System
    decreases |schedule|
  {
    if schedule == [] then s
    else
      var m := schedule[0];
      Run(if m.thread < |s.threads| then Next(s, m.thread, m.env) else s, schedule[1..])
  }

  /** How many threads are inside a dynamic section. */
  function Insiders(threads: seq<Thread>): nat {
    if threads == [] then 0 else (if Inside(threads[0].pc) then 1 else 0) + Insiders(threads[1..])
  }

  lemma {:induction false} InsidersUpdate(threads: seq<Thread>, t: nat, th: Thread)
    requires t < |threads|
    ensures Insiders(threads[t := th])
         == Insiders(threads) - (if Inside(threads[t].pc) then 1 else 0) + (if Inside(th.pc) then 1 else 0)
  {
    if t == 0 {
      assert threads[t := th][1..] == threads[1..];
    } else {
      assert threads[t := th][1..] == threads[1..][t - 1 := th];
      InsidersUpdate(threads[1..], t - 1, th);
    }
  }

  lemma {:induction false} InsidersAwaken(threads: seq<Thread>)
    ensures Insiders(Awaken(threads)) == Insiders(threads)
  {
    if threads != [] {
      assert Awaken(threads)[1..] == Awaken(threads[1..]);
      InsidersAwaken(threads[1..]);
    }
  }

  lemma {:induction false} InsidersSome(threads: seq<Thread>, i: nat)
    requires i < |threads| && Inside(threads[i].pc)
    ensures Insiders(threads) > 0
  {
    if i > 0 { InsidersSome(threads[1..], i - 1); }
  }

  predicate LockInv(s: System) {
    && (s.l.lock.Some? ==> s.l.lock.value < |s.threads|)
    && forall i :: 0 <= i < |s.threads| ==> (Holds(s.threads[i].pc) <==> s.l.lock == Some(i))
  }

  predicate CountInv(s: System) {
    s.l.busy == Insiders(s.threads)
  }

  function HolderPc(s: System): Option<Pc>
    requires LockInv(s)
  {
    if s.l.lock.Some? then Some(s.threads[s.l.lock.value].pc) else None
  }

  predicate HolderIn(holder: Option<Pc>, pcs: set<Pc>) {
    holder.Some? && holder.value in pcs
  }

  /** What the position of the lock holder says about the count and the table. */
  predicate HolderOk(l: List, holder: Option<Pc>) {
    && (HolderIn(holder, {Exclusive, ReleaseUnlock, UnbusyWake}) ==> l.busy == 0)
    && (HolderIn(holder, {GrabSleep}) ==> l.busy != 0)
    && (HolderIn(holder, {CondRaise}) ==> l.numloaded > l.staticmax)
  }

  /** A sleeping registrar is owed a wakeup: by the readers still inside, or by the one just leaving. */
  predicate WakeupOwed(l: List, holder: Option<Pc>) {
    l.busy != 0 || HolderIn(holder, {UnbusyTest, UnbusyWake})
  }

  predicate SleepInv(s: System)
    requires LockInv(s)
  {
    forall i :: 0 <= i < |s.threads| && s.threads[i].pc.Sleeping? ==> WakeupOwed(s.l, HolderPc(s))
  }

  /** A reader inside still sees the edition it started with. */
  predicate ReaderOk(l: List, th: Thread) {
    Inside(th.pc) ==> th.seen == l.edition && (th.conditional ==> l.numloaded > l.staticmax)
  }

  predicate FrozenInv(s: System) {
    forall i :: 0 <= i < |s.threads| ==> ReaderOk(s.l, s.threads[i])
  }

  predicate Inv(s: System) {
    LockInv(s) && CountInv(s) && HolderOk(s.l, HolderPc(s)) && SleepInv(s) && FrozenInv(s)
  }

  lemma {:induction false} NobodyInside(threads: seq<Thread>)
    requires forall i :: 0 <= i < |threads| ==> !Inside(threads[i].pc)
    ensures Insiders(threads) == 0
  {
    if threads != [] { NobodyInside(threads[1..]); }
  }

  lemma InitialInv(s: System)
    requires Initial(s)
    ensures Inv(s)
  {
    NobodyInside(s.threads);
  }

  lemma OthersKeep(s: System, t: nat, env: Env, i: nat)
    requires t < |s.threads| && i < |s.threads| && i != t
    ensures var s' := Next(s, t, env);
            && Holds(s'.threads[i].pc) == Holds(s.threads[i].pc)
            && Inside(s'.threads[i].pc) == Inside(s.threads[i].pc)
            && s'.threads[i].seen == s.threads[i].seen && s'.threads[i].conditional == s.threads[i].conditional
            && (s'.threads[i].pc.Sleeping? <==> s.threads[i].pc.Sleeping? && !Wakes(s.threads[t].pc))
            && (!s.threads[i].pc.Sleeping? ==> s'.threads[i] == s.threads[i])
  {
  }

  lemma OwnMove(s: System, t: nat, env: Env)
    requires t < |s.threads|
    ensures Next(s, t, env).l == Act(s.l, s.threads[t], t, env).0
    ensures Next(s, t, env).threads[t] == Act(s.l, s.threads[t], t, env).1
  {
    if Wakes(s.threads[t].pc) {
      assert !Act(s.l, s.threads[t], t, env).1.pc.Sleeping?;
    }
  }

  lemma OwnLock(l: List, th: Thread, t: nat, env: Env)
    requires Holds(th.pc) <==> l.lock == Some(t)
    ensures var (l', th') := Act(l, th, t, env);
            && (Holds(th.pc) ==> l'.lock == if Holds(th'.pc) then Some(t) else None)
            && (!Holds(th.pc) ==> if Holds(th'.pc) then l.lock == None && l'.lock == Some(t) else l'.lock == l.lock)
  {
  }

  lemma NextLock(s: System, t: nat, env: Env)
    requires t < |s.threads| && LockInv(s)
    ensures LockInv(Next(s, t, env))
  {
    OwnMove(s, t, env);
    OwnLock(s.l, s.threads[t], t, env);
    var s' := Next(s, t, env);
    forall i | 0 <= i < |s'.threads| ensures Holds(s'.threads[i].pc) <==> s'.l.lock == Some(i) {
      if i != t { OthersKeep(s, t, env, i); }
    }
  }

  lemma NextHolder(s: System, t: nat, env: Env)
    requires t < |s.threads| && LockInv(s)
    ensures var s', th' := Next(s, t, env), Act(s.l, s.threads[t], t, env).1;
            && LockInv(s')
            && (Holds(s.threads[t].pc) || Holds(th'.pc) ==>
                  HolderPc(s') == if Holds(th'.pc) then Some(th'.pc) else None)
            && (!Holds(s.threads[t].pc) && !Holds(th'.pc) ==> HolderPc(s') == HolderPc(s))
            && (Holds(s.threads[t].pc) ==> HolderPc(s) == Some(s.threads[t].pc))
            && (!Holds(s.threads[t].pc) && Holds(th'.pc) ==> HolderPc(s) == None)
  {
    NextLock(s, t, env);
    OwnMove(s, t, env);
    OwnLock(s.l, s.threads[t], t, env);
    if s.l.lock.Some? && s.l.lock.value != t {
      OthersKeep(s, t, env, s.l.lock.value);
    }
  }

  /** The count moves exactly when its own thread enters or leaves a dynamic section. */
  lemma OwnCount(l: List, th: Thread, t: nat, env: Env)
    ensures var (l', th') := Act(l, th, t, env);
            l'.busy == l.busy - (if Inside(th.pc) then 1 else 0) + (if Inside(th'.pc) then 1 else 0)
  {
  }

  lemma NextCount(s: System, t: nat, env: Env)
    requires t < |s.threads| && CountInv(s)
    ensures CountInv(Next(s, t, env))
  {
    var (l, th) := Act(s.l, s.threads[t], t, env);
    OwnCount(s.l, s.threads[t], t, env);
    InsidersUpdate(s.threads, t, th);
    InsidersAwaken(s.threads[t := th]);
  }

  lemma HolderMoves(l: List, th: Thread, t: nat, env: Env)
    requires Holds(th.pc) && HolderOk(l, Some(th.pc))
    ensures var (l', th') := Act(l, th, t, env);
            HolderOk(l', if Holds(th'.pc) then Some(th'.pc) else None)
  {
  }

  lemma OutsiderMoves(l: List, th: Thread, t: nat, env: Env, holder: Option<Pc>)
    requires !Holds(th.pc) && HolderOk(l, holder)
    requires Holds(Act(l, th, t, env).1.pc) ==> holder == None
    ensures var (l', th') := Act(l, th, t, env);
            && l'.busy == l.busy && l'.edition == l.edition && l'.numloaded == l.numloaded
                 && l'.staticmax == l.staticmax
            && HolderOk(l', if Holds(th'.pc) then Some(th'.pc) else holder)
            && (WakeupOwed(l, holder) ==> WakeupOwed(l', if Holds(th'.pc) then Some(th'.pc) else holder))
            && (th'.pc.Sleeping? ==> th.pc.Sleeping?)
  {
  }

  lemma NextHolderOk(s: System, t: nat, env: Env)
    requires t < |s.threads| && LockInv(s) && HolderOk(s.l, HolderPc(s))
    ensures LockInv(Next(s, t, env)) && HolderOk(Next(s, t, env).l, HolderPc(Next(s, t, env)))
  {
    NextHolder(s, t, env);
    OwnMove(s, t, env);
    if Holds(s.threads[t].pc) {
      HolderMoves(s.l, s.threads[t], t, env);
    } else {
      OutsiderMoves(s.l, s.threads[t], t, env, HolderPc(s));
    }
  }

  lemma HolderPays(l: List, th: Thread, t: nat, env: Env)
    requires Holds(th.pc) && !Wakes(th.pc) && HolderOk(l, Some(th.pc)) && l.busy >= 0
    requires WakeupOwed(l, Some(th.pc)) || Act(l, th, t, env).1.pc.Sleeping?
    ensures var (l', th') := Act(l, th, t, env);
            WakeupOwed(l', if Holds(th'.pc) then Some(th'.pc) else None)
  {
  }

  lemma NextSleep(s: System, t: nat, env: Env)
    requires t < |s.threads| && LockInv(s) && CountInv(s) && HolderOk(s.l, HolderPc(s)) && SleepInv(s)
    ensures LockInv(Next(s, t, env)) && SleepInv(Next(s, t, env))
  {
    NextHolder(s, t, env);
    OwnMove(s, t, env);
    var s' := Next(s, t, env);
    forall i | 0 <= i < |s.threads| && s'.threads[i].pc.Sleeping? ensures WakeupOwed(s'.l, HolderPc(s')) {
      if i != t {
        OthersKeep(s, t, env, i);
      }
      if Holds(s.threads[t].pc) {
        if !Wakes(s.threads[t].pc) { HolderPays(s.l, s.threads[t], t, env); }
      } else {
        OutsiderMoves(s.l, s.threads[t], t, env, HolderPc(s));
      }
    }
  }

  lemma OwnReaderOk(l: List, th: Thread, t: nat, env: Env)
    requires ReaderOk(l, th)
    requires th.pc.CondRaise? ==> l.numloaded > l.staticmax
    ensures var (l', th') := Act(l, th, t, env);
            && ReaderOk(l', th')
            && (l'.edition != l.edition || l'.numloaded != l.numloaded || l'.staticmax != l.staticmax ==>
                  th.pc.Exclusive?)
  {
  }

  lemma NextFrozen(s: System, t: nat, env: Env)
    requires t < |s.threads| && LockInv(s) && CountInv(s) && HolderOk(s.l, HolderPc(s)) && FrozenInv(s)
    ensures FrozenInv(Next(s, t, env))
  {
    OwnMove(s, t, env);
    var s' := Next(s, t, env);
    assert s.threads[t].pc.CondRaise? || s.threads[t].pc.Exclusive? ==> s.l.lock == Some(t);
    OwnReaderOk(s.l, s.threads[t], t, env);
    forall i | 0 <= i < |s.threads| ensures ReaderOk(s'.l, s'.threads[i]) {
      if i != t {
        OthersKeep(s, t, env, i);
        assert ReaderOk(s.l, s.threads[i]);
        if Inside(s.threads[i].pc) {
          InsidersSome(s.threads, i);
          assert !s.threads[t].pc.Exclusive?;
        }
      }
    }
  }

  lemma NextInv(s: System, t: nat, env: Env)
    requires t < |s.threads| && Inv(s)
    ensures Inv(Next(s, t, env))
  {
    NextCount(s, t, env);
    NextHolderOk(s, t, env);
    NextSleep(s, t, env);
    NextFrozen(s, t, env);
  }

  lemma {:induction false} RunInv(s: System, schedule: seq<Move>)
    requires Inv(s)
    ensures Inv(Run(s, schedule))
    decreases |schedule|
  {
    if schedule != [] {
      var m := schedule[0];
      if m.thread < |s.threads| {
        NextInv(s, m.thread, m.env);
      }
      RunInv(if m.thread < |s.threads| then Next(s, m.thread, m.env) else s, schedule[1..]);
    }
  }

  /**
   After any schedule of readers and registrars: the count is the number of threads inside dynamic sections;
   it is zero, and nobody is inside, during every exclusive section; a reader inside still sees the table it
   started with; and with the lock free a registrar is asleep only while the count is positive.
   */
  lemma EveryRunIsSafe(s0: System, schedule: seq<Move>)
    requires Initial(s0)
    ensures var s := Run(s0, schedule);
            && s.l.busy == Insiders(s.threads)
            && (forall i :: 0 <= i < |s.threads| && (s.threads[i].pc.Exclusive? || s.threads[i].pc.ReleaseUnlock?) ==>
                  s.l.busy == 0 && s.l.lock == Some(i) && forall j :: 0 <= j < |s.threads| ==> !Inside(s.threads[j].pc))
            && (forall i :: 0 <= i < |s.threads| && Inside(s.threads[i].pc) ==>
                  s.threads[i].seen == s.l.edition && (s.threads[i].conditional ==> s.l.numloaded > s.l.staticmax))
            && (s.l.lock == None ==> forall i :: 0 <= i < |s.threads| && s.threads[i].pc.Sleeping? ==> s.l.busy > 0)
            && ((exists i :: 0 <= i < |s.threads| && s.threads[i].pc.Sleeping?) ==>
                  s.l.busy > 0 || exists j :: 0 <= j < |s.threads| && WakesNext(s.threads[j].pc))
  {
    InitialInv(s0);
    RunInv(s0, schedule);
    var s := Run(s0, schedule);
    if s.l.busy <= 0 && exists i :: 0 <= i < |s.threads| && s.threads[i].pc.Sleeping? {
      assert WakesNext(s.threads[s.l.lock.value].pc);
    }
    forall i | 0 <= i < |s.threads| && (s.threads[i].pc.Exclusive? || s.threads[i].pc.ReleaseUnlock?)
      ensures s.l.busy == 0 && s.l.lock == Some(i) && forall j :: 0 <= j < |s.threads| ==> !Inside(s.threads[j].pc)
    {
      assert Holds(s.threads[i].pc);
      forall j | 0 <= j < |s.threads| ensures !Inside(s.threads[j].pc) {
        if Inside(s.threads[j].pc) { InsidersSome(s.threads, j); }
      }
    }
    forall i | 0 <= i < |s.threads| && Inside(s.threads[i].pc)
      ensures s.threads[i].seen == s.l.edition && (s.threads[i].conditional ==> s.l.numloaded > s.l.staticmax)
    {
      assert ReaderOk(s.l, s.threads[i]);
    }
  }

  /** Only an exclusive section edits the table, and then nobody is inside a dynamic section. */
  lemma EditsAreExclusive(s: System, t: nat, env: Env)
    requires t < |s.threads| && Inv(s)
    ensures var l' := Next(s, t, env).l;
      l'.edition != s.l.edition || l'.numloaded != s.l.numloaded || l'.staticmax != s.l.staticmax ==>
        && s.threads[t].pc.Exclusive? && s.l.busy == 0
        && forall j :: 0 <= j < |s.threads| ==> !Inside(s.threads[j].pc)
  {
    if s.threads[t].pc.Exclusive? {
      assert Holds(s.threads[t].pc);
      forall j | 0 <= j < |s.threads|
        ensures !Inside(s.threads[j].pc)
      {
        if Inside(s.threads[j].pc) { InsidersSome(s.threads, j); }
      }
    }
  }

  lemma {:induction false} SomebodyInside(threads: seq<Thread>)
    requires Insiders(threads) > 0
    ensures exists i :: 0 <= i < |threads| && Inside(threads[i].pc)
  {
    if !Inside(threads[0].pc) {
      SomebodyInside(threads[1..]);
      var i :| 0 <= i < |threads[1..]| && Inside(threads[1..][i].pc);
      assert Inside(threads[i + 1].pc);
    }
  }

  /** Thread i is awake and its next statement changes the state, whatever the caller of the exclusive section does. */
  ghost predicate CanMove(s: System, i: nat) {
    i < |s.threads| && !s.threads[i].pc.Sleeping? && forall env :: Next(s, i, env) != s
  }

  lemma AwakeCanMove(s: System, i: nat)
    requires i < |s.threads| && !s.threads[i].pc.Sleeping? && !s.threads[i].pc.Done?
    requires s.l.lock == None || Holds(s.threads[i].pc)
    ensures CanMove(s, i)
  {
    forall env
      ensures Next(s, i, env) != s
    {
      var (l, th) := Act(s.l, s.threads[i], i, env);
      assert l != s.l || th != s.threads[i];
      assert Next(s, i, env).l == l && Next(s, i, env).threads[i]
          == (if Wakes(s.threads[i].pc) then AwakenOne(th) else th);
    }
  }

  /** No deadlock: while some thread has not finished, some thread that is awake can move. */
  lemma SomebodyCanMove(s0: System, schedule: seq<Move>)
    requires Initial(s0)
    ensures var s := Run(s0, schedule);
      (exists i :: 0 <= i < |s.threads| && !s.threads[i].pc.Done?) ==> exists i :: CanMove(s, i)
  {
    InitialInv(s0);
    RunInv(s0, schedule);
    var s := Run(s0, schedule);
    if s.l.lock.Some? {
      AwakeCanMove(s, s.l.lock.value);
    } else if i :| 0 <= i < |s.threads| && !s.threads[i].pc.Done? {
      if s.threads[i].pc.Sleeping? {
        SomebodyInside(s.threads);
        var j :| 0 <= j < |s.threads| && Inside(s.threads[j].pc);
        AwakeCanMove(s, j);
      } else {
        AwakeCanMove(s, i);
      }
    }
  }

  /** n statements of thread t with nobody interfering. */
  function Solo(s: System, t: nat, n: nat, env: Env): (s': System)
    requires t < |s.threads|
    ensures |s'.threads| == |s.threads|
    decreases n
  {
    if n == 0 then s else Solo(Next(s, t, env), t, n - 1, env)
  }

  lemma {:induction false} SoloInv(s: System, t: nat, n: nat, env: Env)
    requires t < |s.threads| && Inv(s)
    ensures Inv(Solo(s, t, n, env))
    decreases n
  {
    if n > 0 {
      NextInv(s, t, env);
      SoloInv(Next(s, t, env), t, n - 1, env);
    }
  }

  /** The last reader to leave wakes every registrar. */
  lemma LastReaderWakesAll(s: System, t: nat, env: Env)
    requires Inv(s) && t < |s.threads| && s.threads[t].pc.UnbusyLower? && s.l.busy == 1
    ensures var s' := Solo(s, t, 4, env);
            && s'.l.busy == 0 && s'.l.lock == None && s'.threads[t].pc == Done
            && forall i :: 0 <= i < |s.threads| ==> !s'.threads[i].pc.Sleeping?
  {
    var s1 := Next(s, t, env);
    var s2 := Next(s1, t, env);
    var s3 := Next(s2, t, env);
    var s4 := Next(s3, t, env);
    assert s1.threads[t].pc == UnbusyTest && s1.l.busy == 0;
    assert s2.threads[t].pc == UnbusyWake;
    assert s3.threads[t].pc == UnbusyUnlock;
    assert Solo(s3, t, 1, env) == Solo(s4, t, 0, env);
    assert Solo(s2, t, 2, env) == Solo(s3, t, 1, env);
    assert Solo(s1, t, 3, env) == Solo(s2, t, 2, env);
    SoloInv(s, t, 4, env);
  }
}
