/**
 The busy-count functions as code that changes the policy list state in place.  Each method is proved to do
 what the same thread's statements do in the interleaving model when nothing comes in between.
 */
module PolicyBusyCode {
  import opened Base
  import opened PolicyBusy

  lemma SoloMore(s: System, t: nat, n: nat, env: Env)
    requires t < |s.threads|
    ensures Solo(s, t, n + 1, env) == Next(Solo(s, t, n, env), t, env)
    decreases n
  {
    if n > 0 { SoloMore(Next(s, t, env), t, n - 1, env); }
  }

  function Moved(s: System, t: nat, l: List, th: Thread): System
    requires t < |s.threads|
  {
    System(l, s.threads[t := th])
  }

  /** One more statement, other than a wakeup. */
  lemma Onward(s: System, t: nat, n: nat, env: Env, l: List, th: Thread)
    requires t < |s.threads| && !Wakes(th.pc)
    requires Solo(s, t, n, env) == Moved(s, t, l, th)
    ensures var (l', th') := Act(l, th, t, env); Solo(s, t, n + 1, env) == Moved(s, t, l', th')
  {
    SoloMore(s, t, n, env);
  }

  lemma BusySection(s: System, t: nat, env: Env)
    requires t < |s.threads| && s.threads[t].pc == BusyWant && s.l.lock == None
    ensures Solo(s, t, 3, env) == Moved(s, t, s.l.(busy := s.l.busy + 1), Thread(Reading, false, s.l.edition))
  {
    var th, held := s.threads[t], s.l.(lock := Some(t));
    assert Solo(s, t, 0, env) == Moved(s, t, s.l, th);
    Onward(s, t, 0, env, s.l, th);
    Onward(s, t, 1, env, held, th.(pc := BusyRaise));
    Onward(s, t, 2, env, held.(busy := s.l.busy + 1), Thread(BusyUnlock, false, s.l.edition));
  }

  lemma CondSection(s: System, t: nat, env: Env)
    requires t < |s.threads| && s.threads[t].pc == CondWant && s.l.lock == None
    ensures s.l.numloaded > s.l.staticmax ==>
              Solo(s, t, 4, env) == Moved(s, t, s.l.(busy := s.l.busy + 1), Thread(Reading, true, s.l.edition))
    ensures s.l.numloaded <= s.l.staticmax ==>
              Solo(s, t, 3, env) == Moved(s, t, s.l, s.threads[t].(pc := Done))
  {
    var th, held := s.threads[t], s.l.(lock := Some(t));
    assert Solo(s, t, 0, env) == Moved(s, t, s.l, th);
    Onward(s, t, 0, env, s.l, th);
    Onward(s, t, 1, env, held, th.(pc := CondTest));
    if s.l.numloaded > s.l.staticmax {
      Onward(s, t, 2, env, held, th.(pc := CondRaise));
      Onward(s, t, 3, env, held.(busy := s.l.busy + 1), Thread(CondUnlock, true, s.l.edition));
    } else {
      Onward(s, t, 2, env, held, th.(pc := CondLeave));
    }
  }

  lemma UnbusySection(s: System, t: nat, env: Env)
    requires t < |s.threads| && s.threads[t].pc == UnbusyWant && s.l.lock == None
    ensures s.l.busy != 1 ==>
              Solo(s, t, 4, env) == Moved(s, t, s.l.(busy := s.l.busy - 1), s.threads[t].(pc := Done))
    ensures s.l.busy == 1 ==>
              Solo(s, t, 5, env) == System(s.l.(busy := 0), Awaken(s.threads[t := s.threads[t].(pc := Done)]))
  {
    var th, held := s.threads[t], s.l.(lock := Some(t));
    var lowered := held.(busy := s.l.busy - 1);
    assert Solo(s, t, 0, env) == Moved(s, t, s.l, th);
    Onward(s, t, 0, env, s.l, th);
    Onward(s, t, 1, env, held, th.(pc := UnbusyLower));
    Onward(s, t, 2, env, lowered, th.(pc := UnbusyTest));
    if s.l.busy == 1 {
      WakeAndUnlock(s, t, 3, env, lowered, th);
    } else {
      Onward(s, t, 3, env, lowered, th.(pc := UnbusyUnlock));
    }
  }

  lemma WakeAndUnlock(s: System, t: nat, n: nat, env: Env, l: List, th: Thread)
    requires t < |s.threads| && Solo(s, t, n, env) == Moved(s, t, l, th.(pc := UnbusyWake))
    ensures Solo(s, t, n + 2, env) == System(l.(lock := None), Awaken(s.threads[t := th.(pc := Done)]))
  {
    SoloMore(s, t, n, env);
    SoloMore(s, t, n + 1, env);
    var threads := s.threads[t := th.(pc := UnbusyUnlock)];
    assert Solo(s, t, n + 1, env) == System(l, Awaken(threads)) by {
      assert s.threads[t := th.(pc := UnbusyWake)][t := th.(pc := UnbusyUnlock)] == threads;
    }
    assert Awaken(threads)[t := th.(pc := Done)] == Awaken(s.threads[t := th.(pc := Done)]);
  }

  lemma GrabSection(s: System, t: nat, env: Env)
    requires t < |s.threads| && s.l.lock == None && s.threads[t].pc in {GrabWant, GrabAgain}
    ensures s.l.busy == 0 ==> Solo(s, t, 2, env) == Moved(s, t, s.l.(lock := Some(t)), s.threads[t].(pc := Exclusive))
    ensures s.l.busy != 0 ==> Solo(s, t, 3, env) == Moved(s, t, s.l, s.threads[t].(pc := Sleeping))
  {
    var th, held := s.threads[t], s.l.(lock := Some(t));
    assert Solo(s, t, 0, env) == Moved(s, t, s.l, th);
    Onward(s, t, 0, env, s.l, th);
    Onward(s, t, 1, env, held, th.(pc := GrabTest));
    if s.l.busy != 0 {
      Onward(s, t, 2, env, held, th.(pc := GrabSleep));
    }
  }

  lemma ReleaseSection(s: System, t: nat, env: Env)
    requires t < |s.threads| && s.threads[t].pc == ReleaseUnlock
    ensures Solo(s, t, 2, env) == System(s.l.(lock := None), Awaken(s.threads[t := s.threads[t].(pc := Done)]))
  {
    var th := s.threads[t];
    SoloMore(s, t, 0, env);
    SoloMore(s, t, 1, env);
    assert s.threads[t := th.(pc := ReleaseWake)][t := th.(pc := Done)] == s.threads[t := th.(pc := Done)];
  }

  // ---- whole calls

  lemma {:induction false} SoloConcat(s: System, t: nat, a: nat, b: nat, env: Env)
    requires t < |s.threads|
    ensures Solo(s, t, a + b, env) == Solo(Solo(s, t, a, env), t, b, env)
    decreases a
  {
    if a > 0 {
      SoloConcat(Next(s, t, env), t, a - 1, b, env);
    }
  }

  /** A conditional reader enters its dynamic section exactly if there seem to be dynamic policies; otherwise it
      returns at once, and the list is as it was. */
  lemma ConditionalEntersIff(s: System, t: nat, env: Env)
    requires t < |s.threads| && s.threads[t].pc == CondLook && s.l.lock == None
    ensures s.l.numloaded > s.l.staticmax ==>
      Solo(s, t, 5, env) == System(s.l.(busy := s.l.busy + 1), s.threads[t := Thread(Reading, true, s.l.edition)])
    ensures s.l.numloaded <= s.l.staticmax ==>
      Solo(s, t, 1, env) == System(s.l, s.threads[t := s.threads[t].(pc := Done)])
  {
    assert Solo(s, t, 1, env) == Next(s, t, env);
    if s.l.numloaded > s.l.staticmax {
      var s1 := Moved(s, t, s.l, s.threads[t].(pc := CondWant));
      CondSection(s1, t, env);
      SoloConcat(s, t, 1, 4, env);
      assert s1.threads[t := Thread(Reading, true, s.l.edition)] == s.threads[t := Thread(Reading, true, s.l.edition)];
    }
  }

  /** A reader that leaves lowers the count by one, and wakes all sleepers if it was the last. */
  lemma ReaderLeaves(s: System, t: nat, env: Env)
    requires Inv(s) && t < |s.threads| && s.threads[t].pc == Reading && s.l.lock == None
    ensures var gone := s.threads[t := s.threads[t].(pc := Done)];
      if s.l.busy == 1 then Solo(s, t, 6, env) == System(s.l.(busy := 0), Awaken(gone))
      else s.l.busy > 1 && Solo(s, t, 5, env) == System(s.l.(busy := s.l.busy - 1), gone)
  {
    InsidersSome(s.threads, t);
    assert Solo(s, t, 1, env) == Next(s, t, env);
    var s1 := Moved(s, t, s.l, s.threads[t].(pc := UnbusyWant));
    UnbusySection(s1, t, env);
    SoloConcat(s, t, 1, 4, env);
    SoloConcat(s, t, 1, 5, env);
    var th := s.threads[t].(pc := Done);
    assert s1.threads[t := th] == s.threads[t := th];
  }

  /** The edit itself, and the statement behind it. */
  lemma EditSection(s: System, t: nat, edit: Env, leave: Env)
    requires t < |s.threads| && s.threads[t].pc == Exclusive && edit.edit && !leave.edit
    ensures Next(s, t, edit).threads == s.threads
    ensures Solo(Next(s, t, edit), t, 1, leave)
         == Moved(s, t, s.l.(numloaded := edit.numloaded, staticmax := edit.staticmax, edition := s.l.edition + 1),
                  s.threads[t].(pc := ReleaseUnlock))
  {
    var s1 := Next(s, t, edit);
    assert s1.threads == s.threads;
    assert Solo(s1, t, 1, leave) == Next(s1, t, leave);
  }

  /** A registrar that finds nobody inside edits the list, leaves the lock free, and wakes all sleepers. */
  lemma RegistrarEdits(s: System, t: nat, edit: Env, leave: Env)
    requires t < |s.threads| && s.threads[t].pc in {GrabWant, GrabAgain} && s.l.lock == None && s.l.busy == 0
    requires edit.edit && !leave.edit
    ensures Solo(Next(Solo(s, t, 2, edit), t, edit), t, 3, leave)
         == System(List(0, edit.numloaded, edit.staticmax, s.l.edition + 1, None),
                   Awaken(s.threads[t := s.threads[t].(pc := Done)]))
  {
    GrabSection(s, t, edit);
    var s2 := Solo(s, t, 2, edit);
    EditSection(s2, t, edit, leave);
    var s3 := Solo(Next(s2, t, edit), t, 1, leave);
    ReleaseSection(s3, t, leave);
    SoloConcat(Next(s2, t, edit), t, 1, 2, leave);
    var th := s.threads[t].(pc := Done);
    assert s3.threads[t := th] == s.threads[t := th];
  }

  /** A registrar that the last reader wakes gets the list for itself. */
  lemma WokenByReader(s: System, t: nat, i: nat, env: Env)
    requires Inv(s) && t < |s.threads| && s.threads[t].pc == UnbusyWant && s.l.lock == None && s.l.busy == 1
    requires i < |s.threads| && s.threads[i].pc == Sleeping
    ensures var s' := Solo(Solo(s, t, 5, env), i, 2, env);
      s'.threads[i].pc == Exclusive && s'.l == s.l.(busy := 0, lock := Some(i))
  {
    UnbusySection(s, t, env);
    GrabSection(Solo(s, t, 5, env), i, env);
  }

  class PolicyListLock {
    var busy: int
    var numloaded: nat
    var staticmax: nat
    var edition: nat
    var lock: Option<nat>
    var threads: seq<Thread>

    ghost function View(): System
      reads this
    {
      System(List(busy, numloaded, staticmax, edition, lock), threads)
    }

    constructor (callers: seq<Thread>, loaded: nat, fixed: nat)
      requires forall i :: 0 <= i < |callers| ==> Starting(callers[i])
      ensures Initial(View()) && Inv(View()) && threads == callers && numloaded == loaded && staticmax == fixed
    {
      busy, numloaded, staticmax, edition, lock, threads := 0, loaded, fixed, 0, None, callers;
      new;
      InitialInv(View());
    }

    /** Lines 458-463. */
    method ListBusy(t: nat, ghost env: Env)
      requires Inv(View()) && lock == None && t < |threads| && threads[t].pc == BusyWant
      modifies this
      ensures View() == Solo(old(View()), t, 3, env) && Inv(View())
      ensures busy == old(busy) + 1 && threads[t].pc == Reading
    {
      BusySection(View(), t, env);
      SoloInv(View(), t, 3, env);
      busy := busy + 1;
      threads := threads[t := Thread(Reading, false, edition)];
    }

    /** Lines 470-480, with nobody in between. */
    method ConditionalBusy(t: nat, ghost env: Env) returns (ret: int, ghost n: nat)
      requires Inv(View()) && lock == None && t < |threads| && threads[t].pc == CondLook
      modifies this
      ensures View() == Solo(old(View()), t, n, env) && Inv(View())
      ensures ret == 1 <==> old(numloaded > staticmax)
      ensures numloaded == old(numloaded) && staticmax == old(staticmax) && lock == None
      ensures ret == 1 ==> busy == old(busy) + 1 && threads[t] == Thread(Reading, true, edition)
      ensures ret != 1 ==> ret == 0 && View().l == old(View().l) && threads[t].pc == Done
    {
      ghost var s := View();
      ConditionalEntersIff(s, t, env);
      SoloInv(s, t, 1, env);
      if numloaded <= staticmax {
        threads := threads[t := threads[t].(pc := Done)];
        return 0, 1;
      }
      threads := threads[t := threads[t].(pc := CondWant)];
      assert Solo(s, t, 1, env) == View();
      ghost var more;
      ret, more := ConditionalBusyLocked(t, env);
      SoloConcat(s, t, 1, more, env);
      n := 1 + more;
    }

    /** Lines 473-480; the table may have been edited since the look at line 470. */
    method ConditionalBusyLocked(t: nat, ghost env: Env) returns (ret: int, ghost n: nat)
      requires Inv(View()) && lock == None && t < |threads| && threads[t].pc == CondWant
      modifies this
      ensures View() == Solo(old(View()), t, n, env) && Inv(View())
      ensures ret == 1 <==> old(numloaded > staticmax)
      ensures numloaded == old(numloaded) && staticmax == old(staticmax) && lock == None && edition == old(edition)
      ensures ret == 1 ==> busy == old(busy) + 1 && threads[t] == Thread(Reading, true, edition)
      ensures ret != 1 ==> ret == 0 && View().l == old(View().l) && threads[t].pc == Done
    {
      CondSection(View(), t, env);
      SoloInv(View(), t, 4, env);
      SoloInv(View(), t, 3, env);
      if numloaded > staticmax {
        busy := busy + 1;
        ret, n := 1, 4;
        threads := threads[t := Thread(Reading, true, edition)];
      } else {
        ret, n := 0, 3;
        threads := threads[t := threads[t].(pc := Done)];
      }
    }

    /** Lines 484-492.  The count never becomes negative. */
    method ListUnbusy(t: nat, ghost env: Env) returns (ghost n: nat)
      requires Inv(View()) && lock == None && t < |threads| && threads[t].pc == UnbusyWant
      modifies this
      ensures View() == Solo(old(View()), t, n, env) && Inv(View())
      ensures busy == old(busy) - 1 >= 0 && threads[t].pc == Done
      ensures busy == 0 ==> forall i :: 0 <= i < |threads| ==> !threads[i].pc.Sleeping?
    {
      UnbusySection(View(), t, env);
      SoloInv(View(), t, 4, env);
      SoloInv(View(), t, 5, env);
      InsidersSome(threads, t);
      busy := busy - 1;
      threads := threads[t := threads[t].(pc := Done)];
      n := 4;
      if busy == 0 {
        threads := Awaken(threads);
        n := 5;
      }
    }

    /** Lines 431-436, one turn of the loop. */
    method GrabExclusive(t: nat, ghost env: Env) returns (ghost n: nat)
      requires Inv(View()) && lock == None && t < |threads| && threads[t].pc in {GrabWant, GrabAgain}
      modifies this
      ensures View() == Solo(old(View()), t, n, env) && Inv(View())
      ensures if busy == 0 then lock == Some(t) && threads[t].pc == Exclusive
              else lock == None && threads[t].pc == Sleeping
    {
      GrabSection(View(), t, env);
      SoloInv(View(), t, 2, env);
      SoloInv(View(), t, 3, env);
      if busy != 0 {
        threads := threads[t := threads[t].(pc := Sleeping)];
        n := 3;
      } else {
        lock := Some(t);
        threads := threads[t := threads[t].(pc := Exclusive)];
        n := 2;
      }
    }

    /** Lines 448-455. */
    method ReleaseExclusive(t: nat, ghost env: Env)
      requires Inv(View()) && t < |threads| && threads[t].pc == ReleaseUnlock
      modifies this
      ensures View() == Solo(old(View()), t, 2, env) && Inv(View())
      ensures busy == 0 && lock == None && forall i :: 0 <= i < |threads| ==> !threads[i].pc.Sleeping?
    {
      ReleaseSection(View(), t, env);
      SoloInv(View(), t, 2, env);
      assert Holds(threads[t].pc) && HolderPc(View()) == Some(ReleaseUnlock);
      lock := None;
      threads := Awaken(threads[t := threads[t].(pc := Done)]);
    }
  }
}
