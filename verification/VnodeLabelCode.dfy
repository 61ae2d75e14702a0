/**
 vnode_label and vnode_relabel as code that changes the vnode in place, one lock section per method.
 Each method is proved to do what the same thread's statements do in the interleaving model when it
 runs them without being interrupted; while it holds the lock nobody else can touch the flags.
 */
module VnodeLabelCode {
  import opened Base
  import opened VnodeLabel

  lemma SoloMore(s: System, t: nat, n: nat, env: Env)
    requires t < |s.threads|
    ensures Solo(s, t, n + 1, env) == Next(Solo(s, t, n, env), t, env)
    decreases n
  {
    if n > 0 { SoloMore(Next(s, t, env), t, n - 1, env); }
  }

  /** System with thread t at pc (with error e) and vnode v. */
  function Moved(s: System, t: nat, v: Vnode, pc: Pc, e: int): System
    requires t < |s.threads|
  {
    System(v, s.threads[t := Thread(pc, e)])
  }

  /** One more statement, other than wakeup. */
  lemma Onward(s: System, t: nat, n: nat, env: Env, v: Vnode, pc: Pc, e: int)
    requires t < |s.threads| && !pc.Wakeup?
    requires Solo(s, t, n, env) == Moved(s, t, v, pc, e)
    ensures var (v', th') := Act(v, Thread(pc, e), t, env);
            Solo(s, t, n + 1, env) == Moved(s, t, v', th'.pc, th'.error)
  {
    SoloMore(s, t, n, env);
  }

  /** Lines 65-81 and 102-111. */
  lemma EnterSection(s: System, t: nat, env: Env)
    requires t < |s.threads| && s.threads[t].pc == WantLock && s.v.lock == None
    ensures var e := s.threads[t].error;
            && (s.v.vlLabeled ==> Solo(s, t, 3, env) == Moved(s, t, s.v, Done, e))
            && (!s.v.vlLabeled && !s.v.vlLabel ==>
                 Solo(s, t, 4, env) == Moved(s, t, s.v.(vlLabel := true), CheckAlloc, e))
            && (!s.v.vlLabeled && s.v.vlLabel ==> Solo(s, t, 6, env) == Moved(s, t, s.v.(vlWait := true), Sleeping, e))
  {
    EnterTests(s, t, env);
    var e, held := s.threads[t].error, s.v.(lock := Some(t));
    if s.v.vlLabeled {
      Onward(s, t, 2, env, held, Unlock, e);
    } else if s.v.vlLabel {
      EnterWaits(s, t, env);
    } else {
      EnterLabels(s, t, env);
    }
  }

  lemma EnterTests(s: System, t: nat, env: Env)
    requires t < |s.threads| && s.threads[t].pc == WantLock && s.v.lock == None
    ensures Solo(s, t, 2, env)
         == Moved(s, t, s.v.(lock := Some(t)), if s.v.vlLabeled then Unlock else Decide, s.threads[t].error)
  {
    var e, held := s.threads[t].error, s.v.(lock := Some(t));
    assert Solo(s, t, 0, env) == Moved(s, t, s.v, WantLock, e);
    Onward(s, t, 0, env, s.v, WantLock, e);
    Onward(s, t, 1, env, held, Revalidate, e);
  }

  lemma EnterWaits(s: System, t: nat, env: Env)
    requires t < |s.threads| && s.v.lock == None && s.v.vlLabel
    requires Solo(s, t, 2, env) == Moved(s, t, s.v.(lock := Some(t)), Decide, s.threads[t].error)
    ensures Solo(s, t, 6, env) == Moved(s, t, s.v.(vlWait := true), Sleeping, s.threads[t].error)
  {
    var e, held := s.threads[t].error, s.v.(lock := Some(t));
    Onward(s, t, 2, env, held, Decide, e);
    Onward(s, t, 3, env, held, TestBusy, e);
    Onward(s, t, 4, env, held, SetWait, e);
    Onward(s, t, 5, env, held.(vlWait := true), GoToSleep, e);
  }

  lemma EnterLabels(s: System, t: nat, env: Env)
    requires t < |s.threads| && s.v.lock == None && !s.v.vlLabel
    requires Solo(s, t, 2, env) == Moved(s, t, s.v.(lock := Some(t)), Decide, s.threads[t].error)
    ensures Solo(s, t, 4, env) == Moved(s, t, s.v.(vlLabel := true), CheckAlloc, s.threads[t].error)
  {
    var e, held := s.threads[t].error, s.v.(lock := Some(t));
    Onward(s, t, 2, env, held, Decide, e);
    Onward(s, t, 3, env, held.(vlLabel := true), DropForWork, e);
  }

  /** Lines 83-90. */
  lemma WorkSection(s: System, t: nat, env: Env)
    requires t < |s.threads| && s.threads[t].pc == CheckAlloc
    ensures s.v.hasLabel ==> Solo(s, t, 2, env) == Moved(s, t, s.v, WantFinish, env.error)
    ensures !s.v.hasLabel ==>
              Solo(s, t, 3, env) == Moved(s, t, s.v.(hasLabel := true, allocs := s.v.allocs + 1), WantFinish, env.error)
  {
    var e := s.threads[t].error;
    assert Solo(s, t, 0, env) == Moved(s, t, s.v, CheckAlloc, e);
    Onward(s, t, 0, env, s.v, CheckAlloc, e);
    if s.v.hasLabel {
      Onward(s, t, 1, env, s.v, Work, e);
    } else {
      Onward(s, t, 1, env, s.v, Alloc, e);
      Onward(s, t, 2, env, s.v.(hasLabel := true, allocs := s.v.allocs + 1), Work, e);
    }
  }

  function Finished(v: Vnode, e: int, env: Env): Vnode {
    v.(vlLabeled := v.vlLabeled || (e == 0 && env.cacheable), vlLabel := false, vlWait := false)
  }

  /** Lines 100 and 122. */
  lemma WakeAndUnlock(s: System, t: nat, n: nat, env: Env, v: Vnode, e: int)
    requires t < |s.threads| && Solo(s, t, n, env) == Moved(s, t, v, Wakeup, e)
    ensures Solo(s, t, n + 2, env) == System(v.(lock := None), Awaken(s.threads[t := Thread(Done, e)]))
  {
    SoloMore(s, t, n, env);
    SoloMore(s, t, n + 1, env);
    var threads := s.threads[t := Thread(Unlock, e)];
    assert Solo(s, t, n + 1, env) == System(v, Awaken(threads)) by {
      assert s.threads[t := Thread(Wakeup, e)][t := Thread(Unlock, e)] == threads;
    }
    assert Awaken(threads)[t := Thread(Done, e)] == Awaken(s.threads[t := Thread(Done, e)]);
  }

  /** Lines 92-101 and 122. */
  lemma FinishSection(s: System, t: nat, env: Env)
    requires t < |s.threads| && s.threads[t].pc == WantFinish && s.v.lock == None
    ensures var e := s.threads[t].error;
            && (!s.v.vlWait ==> Solo(s, t, 5, env) == Moved(s, t, Finished(s.v, e, env), Done, e))
            && (s.v.vlWait ==>
                  Solo(s, t, 7, env) == System(Finished(s.v, e, env), Awaken(s.threads[t := Thread(Done, e)])))
  {
    var e, held := s.threads[t].error, s.v.(lock := Some(t));
    FinishMarks(s, t, env, held, e);
    var cleared := Finished(held, e, env).(vlWait := s.v.vlWait);
    Onward(s, t, 3, env, cleared, CheckWait, e);
    Onward(s, t, 4, env, cleared, if s.v.vlWait then ClearWait else Unlock, e);
    if s.v.vlWait {
      WakeAndUnlock(s, t, 5, env, cleared.(vlWait := false), e);
    }
  }

  lemma FinishMarks(s: System, t: nat, env: Env, held: Vnode, e: int)
    requires t < |s.threads| && s.threads[t] == Thread(WantFinish, e) && s.v.lock == None
    requires held == s.v.(lock := Some(t))
    ensures Solo(s, t, 3, env) == Moved(s, t, Finished(held, e, env).(vlWait := s.v.vlWait), CheckWait, e)
  {
    var marked := held.(vlLabeled := s.v.vlLabeled || (e == 0 && env.cacheable));
    assert Solo(s, t, 0, env) == Moved(s, t, s.v, WantFinish, e);
    Onward(s, t, 0, env, s.v, WantFinish, e);
    Onward(s, t, 1, env, held, SetLabeled, e);
    Onward(s, t, 2, env, marked, ClearLabel, e);
  }

  /** Lines 113-122 and back to 108. */
  lemma RecheckSection(s: System, t: nat, env: Env)
    requires t < |s.threads| && s.threads[t].pc == WantRecheck && s.v.lock == None
    ensures var e := s.threads[t].error;
            && (e == EWOULDBLOCK ==> Solo(s, t, 3, env) == Moved(s, t, s.v, Done, e))
            && (e != EWOULDBLOCK && !s.v.vlLabel ==> Solo(s, t, 4, env) == Moved(s, t, s.v, Done, e))
            && (e != EWOULDBLOCK && s.v.vlLabel ==>
                 Solo(s, t, 5, env) == Moved(s, t, s.v.(vlWait := true), Sleeping, e))
  {
    RecheckTests(s, t, env);
    var e, held := s.threads[t].error, s.v.(lock := Some(t));
    if e == EWOULDBLOCK {
      Onward(s, t, 2, env, held, Unlock, e);
    } else if s.v.vlLabel {
      RecheckWaits(s, t, env);
    } else {
      RecheckEnds(s, t, env);
    }
  }

  lemma RecheckTests(s: System, t: nat, env: Env)
    requires t < |s.threads| && s.threads[t].pc == WantRecheck && s.v.lock == None
    ensures Solo(s, t, 2, env)
         == Moved(s, t, s.v.(lock := Some(t)),
                  if s.threads[t].error == EWOULDBLOCK then Unlock else TestBusy, s.threads[t].error)
  {
    var e, held := s.threads[t].error, s.v.(lock := Some(t));
    assert Solo(s, t, 0, env) == Moved(s, t, s.v, WantRecheck, e);
    Onward(s, t, 0, env, s.v, WantRecheck, e);
    Onward(s, t, 1, env, held, CheckTimeout, e);
  }

  lemma RecheckWaits(s: System, t: nat, env: Env)
    requires t < |s.threads| && s.v.lock == None && s.v.vlLabel
    requires Solo(s, t, 2, env) == Moved(s, t, s.v.(lock := Some(t)), TestBusy, s.threads[t].error)
    ensures Solo(s, t, 5, env) == Moved(s, t, s.v.(vlWait := true), Sleeping, s.threads[t].error)
  {
    var e, held := s.threads[t].error, s.v.(lock := Some(t));
    Onward(s, t, 2, env, held, TestBusy, e);
    Onward(s, t, 3, env, held, SetWait, e);
    Onward(s, t, 4, env, held.(vlWait := true), GoToSleep, e);
  }

  lemma RecheckEnds(s: System, t: nat, env: Env)
    requires t < |s.threads| && s.v.lock == None && !s.v.vlLabel
    requires Solo(s, t, 2, env) == Moved(s, t, s.v.(lock := Some(t)), TestBusy, s.threads[t].error)
    ensures Solo(s, t, 4, env) == Moved(s, t, s.v, Done, s.threads[t].error)
  {
    var e, held := s.threads[t].error, s.v.(lock := Some(t));
    Onward(s, t, 2, env, held, TestBusy, e);
    Onward(s, t, 3, env, held, Unlock, e);
  }

  /** Lines 141-149, from the caller's lock or from a wakeup. */
  lemma RelabelSection(s: System, t: nat, env: Env)
    requires t < |s.threads| && s.v.lock == None
    requires s.threads[t].pc == RelabelWant || s.threads[t].pc == RelabelWoken
    ensures var e := s.threads[t].error;
            && (!s.v.vlLabel ==> Solo(s, t, 4, env) == Moved(s, t, s.v.(vlLabeled := false), Done, e))
            && (s.v.vlLabel ==> Solo(s, t, 4, env) == Moved(s, t, s.v.(vlWait := true), RelabelSleeping, e))
  {
    RelabelTests(s, t, env);
    if s.v.vlLabel {
      RelabelWaits(s, t, env);
    } else {
      RelabelClears(s, t, env);
    }
  }

  lemma RelabelTests(s: System, t: nat, env: Env)
    requires t < |s.threads| && s.v.lock == None
    requires s.threads[t].pc == RelabelWant || s.threads[t].pc == RelabelWoken
    ensures Solo(s, t, 2, env)
         == Moved(s, t, s.v.(lock := Some(t)), if s.v.vlLabel then RelabelSetWait else RelabelClear, s.threads[t].error)
  {
    var e, held := s.threads[t].error, s.v.(lock := Some(t));
    assert Solo(s, t, 0, env) == Moved(s, t, s.v, s.threads[t].pc, e);
    Onward(s, t, 0, env, s.v, s.threads[t].pc, e);
    Onward(s, t, 1, env, held, RelabelTest, e);
  }

  lemma RelabelWaits(s: System, t: nat, env: Env)
    requires t < |s.threads| && s.v.lock == None && s.v.vlLabel
    requires Solo(s, t, 2, env) == Moved(s, t, s.v.(lock := Some(t)), RelabelSetWait, s.threads[t].error)
    ensures Solo(s, t, 4, env) == Moved(s, t, s.v.(vlWait := true), RelabelSleeping, s.threads[t].error)
  {
    var e, held := s.threads[t].error, s.v.(lock := Some(t));
    Onward(s, t, 2, env, held, RelabelSetWait, e);
    Onward(s, t, 3, env, held.(vlWait := true), RelabelSleep, e);
  }

  lemma RelabelClears(s: System, t: nat, env: Env)
    requires t < |s.threads| && s.v.lock == None && !s.v.vlLabel
    requires Solo(s, t, 2, env) == Moved(s, t, s.v.(lock := Some(t)), RelabelClear, s.threads[t].error)
    ensures Solo(s, t, 4, env) == Moved(s, t, s.v.(vlLabeled := false), Done, s.threads[t].error)
  {
    var e, held := s.threads[t].error, s.v.(lock := Some(t));
    Onward(s, t, 2, env, held, RelabelClear, e);
    Onward(s, t, 3, env, held.(vlLabeled := false), RelabelUnlock, e);
  }

  // ---- whole calls

  lemma {:induction false} SoloConcat(s: System, t: nat, a: nat, b: nat, env: Env)
    requires t < |s.threads|
    ensures Solo(s, t, a + b, env) == Solo(Solo(s, t, a, env), t, b, env)
    decreases a
  {
    if a > 0 {
      SoloConcat(Next(s, t, env), t, a - 1, b, env);
    }
  }

  /** Line 62. */
  lemma FastSection(s: System, t: nat, env: Env)
    requires t < |s.threads| && s.threads[t].pc == FastCheck
    ensures s.v.vlLabeled ==> Solo(s, t, 1, env) == Moved(s, t, s.v, Done, 0)
    ensures !s.v.vlLabeled ==> Solo(s, t, 1, env) == Moved(s, t, s.v, WantLock, s.threads[t].error)
  {
    assert Solo(s, t, 1, env) == Next(s, t, env);
  }

  /** A call of vnode_label on a vnode that is labelled returns 0 at once and leaves everything else alone. */
  lemma LabelledReturns(s: System, t: nat, env: Env)
    requires t < |s.threads| && s.threads[t] == Thread(FastCheck, 0) && s.v.vlLabeled
    ensures Solo(s, t, 1, env) == System(s.v, s.threads[t := Thread(Done, 0)])
  {
    FastSection(s, t, env);
  }

  /** The first section of a call that finds the vnode unlabelled. */
  lemma UnlabelledEnters(s: System, t: nat, env: Env)
    requires t < |s.threads| && s.threads[t] == Thread(FastCheck, 0) && !s.v.vlLabeled && s.v.lock == None
    ensures !s.v.vlLabel ==> Solo(s, t, 5, env) == Moved(s, t, s.v.(vlLabel := true), CheckAlloc, 0)
    ensures s.v.vlLabel ==> Solo(s, t, 7, env) == Moved(s, t, s.v.(vlWait := true), Sleeping, 0)
  {
    FastSection(s, t, env);
    var s1 := Moved(s, t, s.v, WantLock, 0);
    EnterSection(s1, t, env);
    SoloConcat(s, t, 1, 4, env);
    SoloConcat(s, t, 1, 6, env);
    assert s1.threads[t := Thread(CheckAlloc, 0)] == s.threads[t := Thread(CheckAlloc, 0)];
    assert s1.threads[t := Thread(Sleeping, 0)] == s.threads[t := Thread(Sleeping, 0)];
  }

  /** A call of vnode_label on a vnode that nobody labels: v_label is allocated if it is missing, the policies are
      asked, and their verdict is returned; the vnode is labelled exactly if they agree and it is cacheable. */
  lemma CallLabels(s: System, t: nat, env: Env)
    requires Inv(s) && t < |s.threads| && s.threads[t] == Thread(FastCheck, 0) && s.v.lock == None
    requires !s.v.vlLabeled && !s.v.vlLabel
    ensures var s' := Solo(s, t, if s.v.hasLabel then 12 else 13, env);
      && s'.threads == s.threads[t := Thread(Done, env.error)]
      && s'.v.hasLabel && s'.v.allocs == s.v.allocs + (if s.v.hasLabel then 0 else 1)
      && (s'.v.vlLabeled <==> env.error == 0 && env.cacheable)
      && !s'.v.vlLabel && !s'.v.vlWait && s'.v.lock == None
  {
    var v := s.v.(vlLabel := true, hasLabel := true, allocs := s.v.allocs + (if s.v.hasLabel then 0 else 1));
    var n := if s.v.hasLabel then 7 else 8;
    CallWorks(s, t, env, v, n);
    CallFinishes(s, t, env, v, n);
  }

  lemma CallWorks(s: System, t: nat, env: Env, v: Vnode, n: nat)
    requires t < |s.threads| && s.threads[t] == Thread(FastCheck, 0) && s.v.lock == None
    requires !s.v.vlLabeled && !s.v.vlLabel && n == (if s.v.hasLabel then 7 else 8)
    requires v == s.v.(vlLabel := true, hasLabel := true, allocs := s.v.allocs + (if s.v.hasLabel then 0 else 1))
    ensures Solo(s, t, n, env) == Moved(s, t, v, WantFinish, env.error)
  {
    UnlabelledEnters(s, t, env);
    var s5 := Moved(s, t, s.v.(vlLabel := true), CheckAlloc, 0);
    WorkSection(s5, t, env);
    SoloConcat(s, t, 5, n - 5, env);
    assert s5.threads[t := Thread(WantFinish, env.error)] == s.threads[t := Thread(WantFinish, env.error)];
  }

  lemma CallFinishes(s: System, t: nat, env: Env, v: Vnode, n: nat)
    requires t < |s.threads| && v.lock == None && !v.vlWait
    requires Solo(s, t, n, env) == Moved(s, t, v, WantFinish, env.error)
    ensures Solo(s, t, n + 5, env) == Moved(s, t, Finished(v, env.error, env), Done, env.error)
  {
    var s1 := Moved(s, t, v, WantFinish, env.error);
    FinishSection(s1, t, env);
    SoloConcat(s, t, n, 5, env);
    assert s1.threads[t := Thread(Done, env.error)] == s.threads[t := Thread(Done, env.error)];
  }

  /** A call of vnode_label on a vnode that another thread is labelling goes to sleep, with VL_LABELWAIT set. */
  lemma CallWaits(s: System, t: nat, env: Env)
    requires Inv(s) && t < |s.threads| && s.threads[t] == Thread(FastCheck, 0) && s.v.lock == None && s.v.vlLabel
    ensures Solo(s, t, 7, env) == System(s.v.(vlWait := true), s.threads[t := Thread(Sleeping, 0)])
  {
    UnlabelledEnters(s, t, env);
  }

  /** A waiter whose sleep times out returns EWOULDBLOCK. */
  lemma TimeoutReturns(s: System, t: nat, env: Env)
    requires t < |s.threads| && s.threads[t].pc == Sleeping && s.v.lock == None && env.timeout
    ensures Solo(s, t, 4, env) == System(s.v, s.threads[t := Thread(Done, EWOULDBLOCK)])
  {
    var s1 := Moved(s, t, s.v, WantRecheck, EWOULDBLOCK);
    assert Solo(s, t, 1, env) == s1 by {
      assert Solo(s, t, 1, env) == Next(s, t, env);
    }
    RecheckSection(s1, t, env);
    SoloConcat(s, t, 1, 3, env);
    assert s1.threads[t := Thread(Done, EWOULDBLOCK)] == s.threads[t := Thread(Done, EWOULDBLOCK)];
  }

  /** A waiter that the labelling thread wakes returns 0, and a waiting vnode_relabel clears VL_LABELED. */
  lemma WokenReturns(s: System, t: nat, i: nat, env: Env)
    requires Inv(s) && t < |s.threads| && s.threads[t].pc == WantFinish && s.v.lock == None
    requires i < |s.threads| && Asleep(s.threads[i].pc)
    ensures var s' := Solo(Solo(s, t, 7, env), i, 4, env);
      && s'.threads[t] == Thread(Done, s.threads[t].error)
      && s'.threads[i] == Thread(Done, if s.threads[i].pc.Sleeping? then 0 else s.threads[i].error)
      && (s'.v.vlLabeled <==> s.threads[i].pc.Sleeping? && s.threads[t].error == 0 && env.cacheable)
      && !s'.v.vlLabel && !s'.v.vlWait && s'.v.lock == None
  {
    FinishSection(s, t, env);
    assert Labelling(s.threads[t].pc) && !s.v.vlLabeled;
    var s7 := Solo(s, t, 7, env);
    if s.threads[i].pc.Sleeping? {
      RecheckSection(s7, i, env);
    } else {
      RelabelSection(s7, i, env);
    }
  }

  class LabelledVnode {
    var vlLabel: bool
    var vlLabeled: bool
    var vlWait: bool
    var hasLabel: bool
    var allocs: nat
    var lock: Option<nat>
    var threads: seq<Thread>

    ghost function View(): System
      reads this
    {
      System(Vnode(vlLabel, vlLabeled, vlWait, hasLabel, allocs, lock), threads)
    }

    /** The vnode between two lock sections. */
    ghost predicate Quiet()
      reads this
    {
      lock == None && Inv(View())
    }

    constructor (callers: seq<Thread>)
      requires forall i :: 0 <= i < |callers| ==>
        callers[i] == Thread(FastCheck, 0) || callers[i] == Thread(RelabelWant, 0)
      ensures Initial(View()) && threads == callers && Quiet()
    {
      vlLabel, vlLabeled, vlWait, hasLabel, allocs, lock := false, false, false, false, 0, None;
      threads := callers;
      new;
      InitialInv(View());
    }

    method MoveThread(t: nat, pc: Pc, error: int)
      requires t < |threads|
      modifies `threads
      ensures threads == old(threads)[t := Thread(pc, error)]
    {
      threads := threads[t := Thread(pc, error)];
    }

    /** Line 62, without the lock. */
    method LookFirst(t: nat, ghost env: Env)
      requires Quiet() && t < |threads| && threads[t].pc == FastCheck
      modifies this
      ensures View() == Solo(old(View()), t, 1, env) && Quiet()
      ensures threads == old(threads)[t := if vlLabeled then Thread(Done, 0) else old(threads[t]).(pc := WantLock)]
      ensures vlLabeled == old(vlLabeled) && vlLabel == old(vlLabel)
    {
      FastSection(View(), t, env);
      SoloInv(View(), t, 1, env);
      var error := threads[t].error;
      if vlLabeled {
        MoveThread(t, Done, 0);
      } else {
        MoveThread(t, WantLock, error);
      }
    }

    /** From the call to the end of the first lock section. */
    method Call(t: nat, ghost env: Env) returns (ghost n: nat)
      requires Quiet() && t < |threads| && threads[t] == Thread(FastCheck, 0)
      modifies this
      ensures View() == Solo(old(View()), t, n, env) && Quiet() && n > 0
      ensures old(vlLabeled) ==> View().v == old(View().v) && threads[t] == Thread(Done, 0)
      ensures old(!vlLabeled && !vlLabel) ==> vlLabel && threads[t] == Thread(CheckAlloc, 0)
      ensures old(!vlLabeled && vlLabel) ==> vlWait && threads[t] == Thread(Sleeping, 0)
    {
      ghost var s := View();
      LookFirst(t, env);
      n := 1;
      if threads[t].pc == WantLock {
        n := Enter(t, env);
        SoloConcat(s, t, 1, n, env);
        n := 1 + n;
      }
    }

    method Enter(t: nat, ghost env: Env) returns (ghost n: nat)
      requires Quiet() && t < |threads| && threads[t].pc == WantLock
      modifies this
      ensures View() == Solo(old(View()), t, n, env) && Quiet() && n > 0
      ensures old(vlLabeled) ==> View().v == old(View().v) && threads[t] == Thread(Done, old(threads[t].error))
      ensures old(!vlLabeled && !vlLabel) ==> vlLabel && threads[t] == Thread(CheckAlloc, old(threads[t].error))
      ensures old(!vlLabeled && vlLabel) ==> vlWait && threads[t] == Thread(Sleeping, old(threads[t].error))
    {
      EnterSection(View(), t, env);
      SoloInv(View(), t, 6, env);
      var error := threads[t].error;
      if vlLabeled {
        n := 3;
        MoveThread(t, Done, error);
        return;
      }
      if !vlLabel {
        vlLabel := true;
        n := 4;
        MoveThread(t, CheckAlloc, error);
      } else {
        vlWait := true;
        n := 6;
        MoveThread(t, Sleeping, error);
      }
    }

    /** The lock is free throughout; only the labelling thread runs these lines. */
    method LabelWork(t: nat, env: Env) returns (ghost n: nat)
      requires Quiet() && t < |threads| && threads[t].pc == CheckAlloc
      modifies this
      ensures View() == Solo(old(View()), t, n, env) && Quiet() && n > 0
      ensures threads[t] == Thread(WantFinish, env.error) && hasLabel
    {
      WorkSection(View(), t, env);
      SoloInv(View(), t, 3, env);
      n := 2;
      if !hasLabel {
        hasLabel := true;
        allocs := allocs + 1;
        n := 3;
      }
      MoveThread(t, WantFinish, env.error);
    }

    method FinishLabel(t: nat, env: Env) returns (ghost n: nat)
      requires Quiet() && t < |threads| && threads[t].pc == WantFinish
      modifies this
      ensures View() == Solo(old(View()), t, n, env) && Quiet() && n > 0
      ensures threads[t] == Thread(Done, old(threads[t].error)) && !vlLabel && !vlWait
      ensures vlLabeled <==> old(vlLabeled) || (old(threads[t].error) == 0 && env.cacheable)
      ensures forall i :: 0 <= i < |threads| ==> !Asleep(threads[i].pc)
    {
      FinishSection(View(), t, env);
      SoloInv(View(), t, 7, env);
      var error := threads[t].error;
      if error == 0 && env.cacheable {
        vlLabeled := true;
      }
      vlLabel := false;
      n := 5;
      MoveThread(t, Done, error);
      if vlWait {
        vlWait := false;
        threads := Awaken(threads);
        n := 7;
      }
      AwakeAfter(View(), t);
    }

    method Recheck(t: nat, ghost env: Env) returns (ghost n: nat)
      requires Quiet() && t < |threads| && threads[t].pc == WantRecheck
      modifies this
      ensures View() == Solo(old(View()), t, n, env) && Quiet() && n > 0
      ensures threads[t].pc == Sleeping <==> old(threads[t].error != EWOULDBLOCK && vlLabel)
    {
      RecheckSection(View(), t, env);
      SoloInv(View(), t, 5, env);
      var error := threads[t].error;
      if error == EWOULDBLOCK {
        n := 3;
        MoveThread(t, Done, error);
      } else if vlLabel {
        vlWait := true;
        n := 5;
        MoveThread(t, Sleeping, error);
      } else {
        n := 4;
        MoveThread(t, Done, error);
      }
    }

    method Relabel(t: nat, ghost env: Env) returns (ghost n: nat)
      requires Quiet() && t < |threads| && threads[t].pc in {RelabelWant, RelabelWoken}
      modifies this
      ensures View() == Solo(old(View()), t, n, env) && Quiet() && n > 0
      ensures if old(vlLabel) then threads[t].pc == RelabelSleeping && vlWait else threads[t].pc == Done && !vlLabeled
    {
      RelabelSection(View(), t, env);
      SoloInv(View(), t, 4, env);
      var error := threads[t].error;
      n := 4;
      if vlLabel {
        vlWait := true;
        MoveThread(t, RelabelSleeping, error);
      } else {
        vlLabeled := false;
        MoveThread(t, Done, error);
      }
    }
  }

  /** Uninterrupted statements keep the invariant, at every point up to n. */
  lemma {:induction false} SoloInv(s: System, t: nat, n: nat, env: Env)
    requires t < |s.threads| && Inv(s)
    ensures forall i :: 0 <= i <= n ==> Inv(Solo(s, t, i, env))
    decreases n
  {
    if n > 0 {
      SoloInv(s, t, n - 1, env);
      SoloMore(s, t, n - 1, env);
      NextInv(Solo(s, t, n - 1, env), t, env);
    }
  }
}
