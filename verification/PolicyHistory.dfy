/** Whole histories of the policy list: from initialisation on, any registrations and removals, in any order. */
module PolicyHistory {
  import opened Base
  import opened PolicyTable
  import opened PolicyList
  import opened MacCheck

  /** handle0 is what the caller's variable for the handle holds before the registration. */
  datatype Event = Load(conf: Conf, handle0: nat) | Unload(handle: nat) | Boot

  /** The table can still grow by a chunk; one of 2^32 places could not be allocated. */
  predicate Room(g: Registry) {
    |g.table| + CHUNK < WORD
  }

  /** One event.  A removal of a handle that is not in use is not asked for, and a policy is not stored outside the
      table. */
  ghost function Step(g: Registry, e: Event): (g': Registry)
    requires Sound(g)
  {
    match e
    case Load(conf, handle0) => if Room(g) then RegisterOutcome(g, conf, handle0).0 else g
    case Unload(h) => if h in Loaded(g) then UnregisterOutcome(g, h).0 else g
    case Boot => g.(late := true)
  }

  /** The event takes a policy away. */
  ghost predicate Removes(g: Registry, e: Event) {
    e.Unload? && e.handle in Loaded(g) && Loaded(g)[e.handle].conf.unloadOk
  }

  /** The removal of handle 0 when it is the last one makes maxindex wrap. */
  ghost predicate Wraps(g: Registry, e: Event) {
    Removes(g, e) && e.handle == 0 && g.maxindex == 0
  }

  /** A registration that finds no place and is carried out nevertheless. */
  ghost predicate Strays(g: Registry, e: Event)
    requires Sound(g)
  {
    e.Load? && Room(g) && Stray(g, e.conf) && e.handle0 < |g.table|
  }

  ghost predicate Overwrites(g: Registry, e: Event)
    requires Sound(g)
  {
    e.Load? && Room(g) && Clobbers(g, e.conf, e.handle0)
  }

  /** How the number of vacant static places changes. */
  ghost function Change(g: Registry, e: Event): int
    requires Sound(g)
  {
    if Removes(g, e) && e.handle < g.staticmax then 1 else if Strays(g, e) then -1 else 0
  }

  /** An event keeps the list sound exactly if it neither makes maxindex wrap nor overwrites. */
  lemma {:induction false} StepSoundIff(g: Registry, e: Event)
    requires Sound(g)
    ensures Sound(Step(g, e)) <==> !Wraps(g, e) && !Overwrites(g, e)
    ensures Sound(Step(g, e)) ==> Holes(Step(g, e)) == Holes(g) + Change(g, e)
  {
    match e
    case Load(conf, handle0) =>
      if Room(g) { RegisterKeepsIff(g, conf, handle0); }
    case Unload(h) =>
      if h in Loaded(g) { UnloadSoundIff(g, h); }
    case Boot =>
  }

  lemma {:induction false} UnloadSoundIff(g: Registry, h: nat)
    requires Sound(g) && h in Loaded(g)
    ensures Sound(Step(g, Unload(h))) <==> !Wraps(g, Unload(h))
    ensures Sound(Step(g, Unload(h))) ==> Holes(Step(g, Unload(h))) == Holes(g) + Change(g, Unload(h))
  {
    UnregisterMeaning(g, h);
    CanRemove(g, h);
    RemovedCounts(g, h);
  }

  /** An event keeps a table in order exactly if it does not take a static policy away or make maxindex wrap. */
  lemma StepOkIff(g: Registry, e: Event)
    requires Ok(g)
    ensures Ok(Step(g, e)) <==> !Wraps(g, e) && !(Removes(g, e) && e.handle < g.staticmax)
  {
    StepSoundIff(g, e);
    Counted(g);
    if Sound(Step(g, e)) {
      Counted(Step(g, e));
    }
  }

  /** The list after a row of events of any length; it stops at the first event after which it is not sound. */
  ghost function After(g: Registry, events: seq<Event>): Registry
    decreases |events|
  {
    if events == [] || !Sound(g) then g else After(Step(g, events[0]), events[1..])
  }

  /** No event makes maxindex wrap or overwrites. */
  ghost predicate AllSound(g: Registry, events: seq<Event>)
    requires Sound(g)
    decreases |events|
  {
    events == []
    || (!Wraps(g, events[0]) && !Overwrites(g, events[0])
        && (StepSoundIff(g, events[0]); AllSound(Step(g, events[0]), events[1..])))
  }

  /** Some event overwrites, and the list was sound before it. */
  ghost predicate Overwritten(g: Registry, events: seq<Event>)
    decreases |events|
  {
    Sound(g) && events != [] && (Overwrites(g, events[0]) || Overwritten(Step(g, events[0]), events[1..]))
  }

  /** Static policies taken away, less vacant static places that a straying registration happened to fill. */
  ghost function Vacated(g: Registry, events: seq<Event>): int
    decreases |events|
  {
    if events == [] || !Sound(g) then 0 else Change(g, events[0]) + Vacated(Step(g, events[0]), events[1..])
  }

  lemma {:induction false} AfterSoundIff(g: Registry, events: seq<Event>)
    requires Sound(g)
    ensures Sound(After(g, events)) <==> AllSound(g, events)
    decreases |events|
  {
    if events != [] {
      StepSoundIff(g, events[0]);
      if Sound(Step(g, events[0])) {
        AfterSoundIff(Step(g, events[0]), events[1..]);
      }
    }
  }

  /** Conservation: the vacant static places of the end are those of the beginning and those vacated since. */
  lemma {:induction false} HolesAfter(g: Registry, events: seq<Event>)
    requires Sound(g) && Sound(After(g, events))
    ensures Holes(After(g, events)) == Holes(g) + Vacated(g, events)
    decreases |events|
  {
    if events != [] {
      AfterSoundIff(g, events);
      StepSoundIff(g, events[0]);
      HolesAfter(Step(g, events[0]), events[1..]);
    }
  }

  /** Policy h owns label slot s. */
  ghost predicate OwnsSlot(g: Registry, h: nat, s: nat) {
    h in Loaded(g) && Loaded(g)[h].slot == Some(s)
  }

  /** Names are unique, handles at most maxindex, a slot bit is clear exactly if one policy owns the slot. */
  ghost predicate Consistent(g: Registry) {
    && (forall h, i :: h in Loaded(g) && i in Loaded(g) && Loaded(g)[h].conf.name == Loaded(g)[i].conf.name ==> h == i)
    && (forall h :: h in Loaded(g) ==> h <= g.maxindex)
    && (forall s: nat :: s < MAX_SLOTS ==> (!g.free[s] <==> exists h: nat :: OwnsSlot(g, h, s)))
    && (forall s: nat, h: nat, i: nat :: OwnsSlot(g, h, s) && OwnsSlot(g, i, s) ==> h == i && s < MAX_SLOTS)
    && (forall h :: h in Loaded(g) ==> (Loaded(g)[h].slot.Some? <==> Loaded(g)[h].conf.wantsSlot))
  }

  lemma SlotsAreConsistent(g: Registry)
    requires SlotsOk(g.table, g.free)
    ensures forall s: nat :: s < MAX_SLOTS ==> (!g.free[s] <==> exists h: nat :: OwnsSlot(g, h, s))
  {
    forall s: nat | s < MAX_SLOTS
      ensures !g.free[s] <==> exists h: nat :: OwnsSlot(g, h, s)
    {
      if Owned(g.table, s) {
        var i: nat :| 0 <= i < |g.table| && Owns(g.table, i, s);
        assert OwnsSlot(g, i, s);
      }
      if h :| OwnsSlot(g, h, s) {
        assert Owns(g.table, h, s);
      }
    }
  }

  lemma SoundIsConsistent(g: Registry)
    requires Sound(g)
    ensures Consistent(g)
  {
    SlotsAreConsistent(g);
  }

  lemma RemovedIsConsistent(g: Registry, h: nat)
    requires Sound(g) && h < |g.table| && g.table[h].Some? && g.numloaded > 0
    requires g.table[h].value.slot.Some? ==> g.table[h].value.slot.value < MAX_SLOTS
    ensures Consistent(Removed(g, h))
  {
    var g' := Removed(g, h);
    RemovedSlots(g.table, g.free, h);
    SlotsAreConsistent(g');
    SoundIsConsistent(g);
    RemovedStaysBelow(g, h);
    assert forall s: nat, i: nat :: OwnsSlot(g', i, s) ==> OwnsSlot(g, i, s);
  }

  lemma RemovedStaysBelow(g: Registry, h: nat)
    requires Sound(g) && h < |g.table| && g.table[h].Some? && g.numloaded > 0
    requires g.table[h].value.slot.Some? ==> g.table[h].value.slot.value < MAX_SLOTS
    ensures forall i :: i in Loaded(Removed(g, h)) ==> i in Loaded(g) && i <= Removed(g, h).maxindex
    ensures forall i :: i in Loaded(Removed(g, h)) ==> Loaded(Removed(g, h))[i] == Loaded(g)[i]
  {
    LoadedRemoved(g, h);
    if h == 0 && g.maxindex == 0 {
      assert Removed(g, h).maxindex == WORD - 1;
    } else {
      RemovedIndex(g, h);
    }
  }

  /** A sound list is consistent, and so is what any event makes of it that does not overwrite. */
  lemma EveryStepIsConsistent(g: Registry, e: Event)
    requires Sound(g)
    ensures !Overwrites(g, e) ==> Consistent(Step(g, e))
  {
    if Removes(g, e) {
      CanRemove(g, e.handle);
      RemovedIsConsistent(g, e.handle);
    } else {
      StepSoundIff(g, e);
      if Sound(Step(g, e)) {
        SoundIsConsistent(Step(g, e));
      }
    }
  }

  lemma {:induction false} AfterIsConsistent(g: Registry, events: seq<Event>)
    requires Sound(g)
    ensures !Overwritten(g, events) ==> Consistent(After(g, events))
    decreases |events|
  {
    SoundIsConsistent(g);
    if events != [] {
      EveryStepIsConsistent(g, events[0]);
      if Sound(Step(g, events[0])) {
        AfterIsConsistent(Step(g, events[0]), events[1..]);
      }
    }
  }

  /** What one more registration does to the list, of which `vacant` static places are free: it is refused for its
      name, its slot or its lateness; or no place is found, because those are the only free ones; or it gets the first
      handle that is free from the static part on. */
  ghost predicate Answered(g: Registry, conf: Conf, handle0: nat, vacant: int)
    requires g.freehint <= |g.table|
  {
    var answer := RegisterOutcome(g, conf, handle0).1;
    if Refusal(g, conf) then answer.Refused?
    else if g.numloaded < |g.table| == g.numloaded + vacant then
      answer == if handle0 < |g.table| then Registered(handle0) else Astray
    else
      && answer.Registered? && answer.handle >= g.staticmax && answer.handle !in Loaded(g)
      && (forall i :: g.staticmax <= i < answer.handle ==> i in Loaded(g))
      && (vacant == 0 ==> forall i :: 0 <= i < answer.handle ==> i in Loaded(g))
  }

  lemma NextRegistration(g: Registry, conf: Conf, handle0: nat)
    requires Sound(g) && Room(g)
    ensures Answered(g, conf, handle0, Holes(g))
  {
    Counted(g);
    RegisterRefusals(g, conf, handle0);
    var answer := RegisterOutcome(g, conf, handle0).1;
    if answer.Registered? {
      RegisterSuccess(g, conf, handle0, answer.handle);
    }
  }

  /** After any history from a sound list g0, however long: the list is sound exactly if no event made maxindex wrap or
      overwrote, and it is consistent if none overwrote.  While it is sound, MAC_CHECK misses somebody exactly if there
      are dynamic policies and no more of them than vacant static places, and it is known how the next registration
      will go. */
  lemma {:induction false} HistoryFrom(g0: Registry, events: seq<Event>, conf: Conf, handle0: nat)
    requires Sound(g0)
    ensures var g := After(g0, events);
      && (Sound(g) <==> AllSound(g0, events))
      && (!Overwritten(g0, events) ==> Consistent(g))
      && (Sound(g) ==>
            && Bounded(g)
            && (Ok(g) <==> Holes(g0) + Vacated(g0, events) == 0)
            && (MissesNobody(g) <==> Dynamic(g) == 0 || Dynamic(g) > Holes(g0) + Vacated(g0, events))
            && (Room(g) ==> Answered(g, conf, handle0, Holes(g0) + Vacated(g0, events))))
  {
    AfterIsConsistent(g0, events);
    AfterSoundIff(g0, events);
    var g := After(g0, events);
    if Sound(g) {
      HolesAfter(g0, events);
      Counted(g);
      CoverIff(g);
      if Room(g) {
        NextRegistration(g, conf, handle0);
      }
    }
  }

  /** The same from initialisation on, when no static place is vacant. */
  lemma {:induction false} EveryHistoryIsConsistent(g0: Registry, events: seq<Event>, conf: Conf, handle0: nat)
    requires Initial(g0)
    ensures Sound(g0)
    ensures var g := After(g0, events);
      && (Sound(g) <==> AllSound(g0, events))
      && (!Overwritten(g0, events) ==> Consistent(g))
      && (Sound(g) ==>
            && Bounded(g)
            && (Ok(g) <==> Vacated(g0, events) == 0)
            && (MissesNobody(g) <==> Dynamic(g) == 0 || Dynamic(g) > Vacated(g0, events))
            && (Room(g) ==> Answered(g, conf, handle0, Vacated(g0, events))))
  {
    InitialOk(g0);
    HistoryFrom(g0, events, conf, handle0);
  }

  /** A removal after any such history, even one that makes maxindex wrap: d dynamic policies are left. */
  lemma {:induction false} RemovalAtTheEnd(g0: Registry, events: seq<Event>, h: nat)
    requires Initial(g0)
    requires var g := After(g0, events);
      Sound(g) && h in Loaded(g) && Loaded(g)[h].conf.unloadOk
    ensures var g := After(g0, events);
      var g' := Step(g, Unload(h));
      var d := if h < g.staticmax then Dynamic(g) else Dynamic(g) - 1;
      Bounded(g') && (MissesNobody(g') <==> d == 0 || d > Vacated(g0, events + [Unload(h)]))
  {
    InitialOk(g0);
    HolesAfter(g0, events);
    RemovalMissesIff(After(g0, events), h);
    VacatedMore(g0, events, Unload(h));
  }

  // ---- joining histories

  lemma {:induction false} AfterConcat(g: Registry, a: seq<Event>, b: seq<Event>)
    ensures After(g, a + b) == After(After(g, a), b)
    decreases |a|
  {
    if a == [] {
      assert a + b == b;
    } else if Sound(g) {
      assert (a + b)[1..] == a[1..] + b;
      AfterConcat(Step(g, a[0]), a[1..], b);
    }
  }

  lemma AfterMore(g: Registry, a: seq<Event>, e: Event)
    requires Sound(After(g, a))
    ensures After(g, a + [e]) == Step(After(g, a), e)
  {
    AfterConcat(g, a, [e]);
    assert After(After(g, a), [e]) == After(Step(After(g, a), e), []);
  }

  lemma {:induction false} VacatedMore(g: Registry, a: seq<Event>, e: Event)
    requires Sound(After(g, a))
    ensures Vacated(g, a + [e]) == Vacated(g, a) + Change(After(g, a), e)
    decreases |a|
  {
    if a == [] {
      assert (a + [e])[1..] == [];
    } else {
      assert Sound(g);
      assert (a + [e])[1..] == a[1..] + [e];
      VacatedMore(Step(g, a[0]), a[1..], e);
    }
  }

  // ---- particular histories

  const A := Conf("a", false, true, false)
  const B := Conf("b", false, true, false)
  const C := Conf("c", false, true, false)

  predicate Plain(conf: Conf) {
    !conf.wantsSlot && !conf.notLate
  }

  /** A sound list of one chunk with the given policies and counters. */
  ghost predicate At(g: Registry, loaded: map<nat, Entry>, numloaded: nat, maxindex: nat, staticmax: nat, freehint: nat,
                     late: bool) {
    && Sound(g) && |g.table| == CHUNK && Loaded(g) == loaded && g.numloaded == numloaded
    && g.maxindex == maxindex && g.staticmax == staticmax && g.freehint == freehint && g.late == late
  }

  lemma StartsAt(g: Registry)
    requires Initial(g)
    ensures At(g, map[], 0, 0, 0, 0, false)
  {
    InitialOk(g);
    NothingLoaded(g);
  }

  lemma Booted(g: Registry, m: map<nat, Entry>, n: nat, top: nat, stat: nat, hint: nat, late: bool)
    requires At(g, m, n, top, stat, hint, late)
    ensures At(Step(g, Boot), m, n, top, stat, hint, true)
  {
  }

  /** A plain policy with a new name, when the place at the hint is free. */
  lemma LoadNext(g: Registry, m: map<nat, Entry>, n: nat, top: nat, stat: nat, h: nat, late: bool, conf: Conf, x: nat)
    requires At(g, m, n, top, stat, h, late) && h < CHUNK && h !in m
    requires Plain(conf) && conf.unloadOk && !NameLoaded(m, conf.name)
    ensures At(Step(g, Load(conf, x)), m[h := Entry(conf, None, true)], n + 1, if h > top then h else top,
               if late then stat else stat + 1, h + 1, late)
  {
    assert g.table[h] == None;
    FindableIff(g);
    Cases(g, conf, x);
    assert Grown(g) == g && SearchFrom(g.table, h) == h;
    LoadedPlaced(g, conf, h, h + 1);
    StepSoundIff(g, Load(conf, x));
  }

  /** Some policy other than the last one. */
  lemma UnloadOne(g: Registry, m: map<nat, Entry>, n: nat, top: nat, stat: nat, hint: nat, late: bool, h: nat)
    requires At(g, m, n, top, stat, hint, late) && h in m && m[h].conf.unloadOk && h < top && n > 0
    ensures At(Step(g, Unload(h)), m - {h}, n - 1, top, stat, if h < hint && h >= stat then h else hint, late)
  {
    UnregisterMeaning(g, h);
    CanRemove(g, h);
  }

  /** The same three steps, at the end of a history. */
  lemma {:induction false} ThenBoot(g0: Registry, es: seq<Event>, m: map<nat, Entry>, n: nat, top: nat, stat: nat,
      hint: nat, late: bool)
    requires At(After(g0, es), m, n, top, stat, hint, late)
    ensures At(After(g0, es + [Boot]), m, n, top, stat, hint, true)
  {
    AfterMore(g0, es, Boot);
    Booted(After(g0, es), m, n, top, stat, hint, late);
  }

  lemma {:induction false} ThenLoad(g0: Registry, es: seq<Event>, m: map<nat, Entry>, n: nat, top: nat, stat: nat,
      h: nat, late: bool, conf: Conf, x: nat)
    requires At(After(g0, es), m, n, top, stat, h, late) && h < CHUNK && h !in m
    requires Plain(conf) && conf.unloadOk && !NameLoaded(m, conf.name)
    ensures At(After(g0, es + [Load(conf, x)]), m[h := Entry(conf, None, true)], n + 1, if h > top then h else top,
               if late then stat else stat + 1, h + 1, late)
  {
    AfterMore(g0, es, Load(conf, x));
    LoadNext(After(g0, es), m, n, top, stat, h, late, conf, x);
  }

  lemma {:induction false} ThenUnload(g0: Registry, es: seq<Event>, m: map<nat, Entry>, n: nat, top: nat, stat: nat,
      hint: nat, late: bool, h: nat)
    requires At(After(g0, es), m, n, top, stat, hint, late) && h in m && m[h].conf.unloadOk && h < top && n > 0
    ensures At(After(g0, es + [Unload(h)]), m - {h}, n - 1, top, stat, if h < hint && h >= stat then h else hint, late)
  {
    AfterMore(g0, es, Unload(h));
    UnloadOne(After(g0, es), m, n, top, stat, hint, late, h);
  }

  /** MAC_CHECK meets the policy at h. */
  predicate Asked(g: Registry, h: nat)
    requires Bounded(g)
  {
    h in Handles(g.table, PassEnd(g))
  }

  /** When numloaded is not above staticmax, the static policies are asked, and no others. */
  lemma StaticPass(g: Registry)
    requires Sound(g) && g.numloaded <= g.staticmax
    ensures Bounded(g) && forall h: nat :: Asked(g, h) <==> h in Loaded(g) && h < g.staticmax
    ensures MissesNobody(g) <==> forall h :: h in Loaded(g) ==> h < g.staticmax
  {
    HandlesAre(g.table, g.staticmax);
    MissesNobodyIff(g);
    assert forall h: nat :: h in Loaded(g) <==> h < |g.table| && g.table[h] != None;
  }

  lemma FullPass(g: Registry)
    requires Sound(g) && g.numloaded > g.staticmax
    ensures Bounded(g) && MissesNobody(g)
  {
    MissesNobodyIff(g);
  }

  const a := Entry(A, None, true)
  const b := Entry(B, None, true)
  const c := Entry(C, None, true)

  /** A static policy, and the kernel has booted. */
  lemma OneStatic(g0: Registry, x: nat)
    requires Initial(g0)
    ensures At(After(g0, [Load(A, x), Boot]), map[0 := a], 1, 0, 1, 1, true)
  {
    StartsAt(g0);
    ThenLoad(g0, [], map[], 0, 0, 0, 0, false, A, x);
    assert [] + [Load(A, x)] == [Load(A, x)];
    ThenBoot(g0, [Load(A, x)], map[0 := a], 1, 0, 1, 1, false);
    assert [Load(A, x)] + [Boot] == [Load(A, x), Boot];
  }

  /** ... and a dynamic one. */
  lemma OneOfEach(g0: Registry, x: nat, y: nat)
    requires Initial(g0)
    ensures At(After(g0, [Load(A, x), Boot, Load(B, y)]), map[0 := a, 1 := b], 2, 1, 1, 2, true)
  {
    OneStatic(g0, x);
    ThenLoad(g0, [Load(A, x), Boot], map[0 := a], 1, 0, 1, 1, true, B, y);
    assert [Load(A, x), Boot] + [Load(B, y)] == [Load(A, x), Boot, Load(B, y)];
  }

  /** Load an unloadable policy, boot, load another one, unload the first: handle 1 is in use, and MAC_CHECK asks
      nobody. */
  lemma StaticRemovalSilencesDynamic(g0: Registry, x: nat, y: nat)
    requires Initial(g0)
    ensures var g := After(g0, [Load(A, x), Boot, Load(B, y), Unload(0)]);
      Loaded(g) == map[1 := b] && Bounded(g) && (forall h: nat :: !Asked(g, h)) && !MissesNobody(g)
  {
    OneOfEach(g0, x, y);
    ThenUnload(g0, [Load(A, x), Boot, Load(B, y)], map[0 := a, 1 := b], 2, 1, 1, 2, true, 0);
    assert [Load(A, x), Boot, Load(B, y)] + [Unload(0)] == [Load(A, x), Boot, Load(B, y), Unload(0)];
    var g := After(g0, [Load(A, x), Boot, Load(B, y), Unload(0)]);
    assert 1 in Loaded(g);
    StaticPass(g);
  }

  lemma TwoStatic(g0: Registry, x: nat, y: nat)
    requires Initial(g0)
    ensures At(After(g0, [Load(A, x), Load(B, y)]), map[0 := a, 1 := b], 2, 1, 2, 2, false)
  {
    StartsAt(g0);
    ThenLoad(g0, [], map[], 0, 0, 0, 0, false, A, x);
    assert [] + [Load(A, x)] == [Load(A, x)];
    ThenLoad(g0, [Load(A, x)], map[0 := a], 1, 0, 1, 1, false, B, y);
    assert [Load(A, x)] + [Load(B, y)] == [Load(A, x), Load(B, y)];
  }

  /** Load two policies, boot, unload the first: only the second is left. */
  lemma FirstOfTwoGone(g0: Registry, x: nat, y: nat)
    requires Initial(g0)
    ensures At(After(g0, [Load(A, x), Load(B, y), Boot, Unload(0)]), map[1 := b], 1, 1, 2, 2, true)
  {
    TwoStatic(g0, x, y);
    ThenBoot(g0, [Load(A, x), Load(B, y)], map[0 := a, 1 := b], 2, 1, 2, 2, false);
    assert [Load(A, x), Load(B, y)] + [Boot] == [Load(A, x), Load(B, y), Boot];
    ThenUnload(g0, [Load(A, x), Load(B, y), Boot], map[0 := a, 1 := b], 2, 1, 2, 2, true, 0);
    assert [Load(A, x), Load(B, y), Boot] + [Unload(0)] == [Load(A, x), Load(B, y), Boot, Unload(0)];
    assert map[0 := a, 1 := b] - {0} == map[1 := b];
  }

  /** Then nobody is missed; but a third policy that is loaded now is never asked. */
  lemma LaterLoadIsHidden(g0: Registry, x: nat, y: nat, z: nat)
    requires Initial(g0)
    ensures var g := After(g0, [Load(A, x), Load(B, y), Boot, Unload(0)]); Bounded(g) && MissesNobody(g)
    ensures var g := After(g0, [Load(A, x), Load(B, y), Boot, Unload(0), Load(C, z)]);
      && Loaded(g) == map[1 := b, 2 := c]
      && Bounded(g) && (forall h: nat :: Asked(g, h) <==> h == 1) && !MissesNobody(g)
  {
    var first := [Load(A, x), Load(B, y), Boot, Unload(0)];
    FirstOfTwoGone(g0, x, y);
    StaticPass(After(g0, first));
    ThenLoad(g0, first, map[1 := b], 1, 1, 2, 2, true, C, z);
    assert first + [Load(C, z)] == [Load(A, x), Load(B, y), Boot, Unload(0), Load(C, z)];
    var g := After(g0, [Load(A, x), Load(B, y), Boot, Unload(0), Load(C, z)]);
    assert 2 in Loaded(g);
    StaticPass(g);
  }

  lemma OneAndTwo(g0: Registry, x: nat, y: nat, z: nat)
    requires Initial(g0)
    ensures At(After(g0, [Load(A, x), Boot, Load(B, y), Load(C, z)]), map[0 := a, 1 := b, 2 := c], 3, 2, 1, 3, true)
  {
    OneOfEach(g0, x, y);
    ThenLoad(g0, [Load(A, x), Boot, Load(B, y)], map[0 := a, 1 := b], 2, 1, 1, 2, true, C, z);
    assert [Load(A, x), Boot, Load(B, y)] + [Load(C, z)] == [Load(A, x), Boot, Load(B, y), Load(C, z)];
    assert map[0 := a, 1 := b][2 := c] == map[0 := a, 1 := b, 2 := c];
  }

  /** Load a policy, boot, load two more, unload the static one: the other two are left. */
  lemma StaticOfThreeGone(g0: Registry, x: nat, y: nat, z: nat)
    requires Initial(g0)
    ensures At(After(g0, [Load(A, x), Boot, Load(B, y), Load(C, z), Unload(0)]), map[1 := b, 2 := c], 2, 2, 1, 3, true)
  {
    var first := [Load(A, x), Boot, Load(B, y), Load(C, z)];
    var three: map<nat, Entry> := map[0 := a, 1 := b, 2 := c];
    OneAndTwo(g0, x, y, z);
    assert 0 in three && three[0] == a;
    ThenUnload(g0, first, three, 3, 2, 1, 3, true, 0);
    LastTwo();
    assert first + [Unload(0)] == [Load(A, x), Boot, Load(B, y), Load(C, z), Unload(0)];
  }

  lemma LastTwo()
    ensures map[0 := a, 1 := b, 2 := c] - {0} == map[1 := b, 2 := c]
  {
    var three := map[0 := a, 1 := b, 2 := c];
    assert (three - {0}).Keys == {1, 2};
  }

  /** Then nobody is missed; but when one of the two is unloaded, the other is never asked again. */
  lemma LaterRemovalHides(g0: Registry, x: nat, y: nat, z: nat)
    requires Initial(g0)
    ensures var g := After(g0, [Load(A, x), Boot, Load(B, y), Load(C, z), Unload(0)]); Bounded(g) && MissesNobody(g)
    ensures var g := After(g0, [Load(A, x), Boot, Load(B, y), Load(C, z), Unload(0), Unload(1)]);
      Loaded(g) == map[2 := c] && Bounded(g) && (forall h: nat :: !Asked(g, h)) && !MissesNobody(g)
  {
    var first := [Load(A, x), Boot, Load(B, y), Load(C, z), Unload(0)];
    StaticOfThreeGone(g0, x, y, z);
    FullPass(After(g0, first));
    ThenUnload(g0, first, map[1 := b, 2 := c], 2, 2, 1, 3, true, 1);
    assert first + [Unload(1)] == [Load(A, x), Boot, Load(B, y), Load(C, z), Unload(0), Unload(1)];
    var g := After(g0, [Load(A, x), Boot, Load(B, y), Load(C, z), Unload(0), Unload(1)]);
    assert 2 in Loaded(g);
    StaticPass(g);
  }

  /** Boot, load an unloadable policy, unload it: maxindex wraps, and a loop that runs up to it, such as the name
      check of the next registration, leaves the table. */
  lemma OnlyRemovalWraps(g0: Registry, x: nat)
    requires Initial(g0)
    ensures var g := After(g0, [Boot, Load(A, x), Unload(0)]);
      && Loaded(g) == map[] && g.maxindex == WORD - 1 && g.maxindex >= |g.table|
  {
    StartsAt(g0);
    ThenBoot(g0, [], map[], 0, 0, 0, 0, false);
    assert [] + [Boot] == [Boot];
    ThenLoad(g0, [Boot], map[], 0, 0, 0, 0, true, A, x);
    assert [Boot] + [Load(A, x)] == [Boot, Load(A, x)];
    UnregisterMeaning(After(g0, [Boot, Load(A, x)]), 0);
    AfterMore(g0, [Boot, Load(A, x)], Unload(0));
    assert [Boot, Load(A, x)] + [Unload(0)] == [Boot, Load(A, x), Unload(0)];
  }

  // ---- a registration that finds no place

  /** The k-th of many unloadable policies. */
  function Nth(k: nat): Conf {
    Conf(seq(k, _ => 'x'), false, true, false)
  }

  /** n policies are loaded before boot; x is what the caller's handle holds. */
  function Loads(n: nat, x: nat): seq<Event> {
    if n == 0 then [] else Loads(n - 1, x) + [Load(Nth(n - 1), x)]
  }

  function FirstN(n: nat): map<nat, Entry> {
    map h: nat | h < n :: Entry(Nth(h), None, true)
  }

  lemma NthIsNew(n: nat)
    ensures !NameLoaded(FirstN(n), Nth(n).name)
  {
    forall h | h in FirstN(n)
      ensures FirstN(n)[h].conf.name != Nth(n).name
    {
      assert |Nth(h).name| == h && |Nth(n).name| == n;
    }
  }

  lemma {:induction false} Loading(g0: Registry, n: nat, x: nat)
    requires Initial(g0) && n <= CHUNK
    ensures At(After(g0, Loads(n, x)), FirstN(n), n, if n == 0 then 0 else n - 1, n, n, false)
    decreases n
  {
    StartsAt(g0);
    if n == 0 {
      assert FirstN(0) == map[];
    } else {
      Loading(g0, n - 1, x);
      OneMoreLoad(g0, n - 1, x);
    }
  }

  lemma OneMoreLoad(g0: Registry, n: nat, x: nat)
    requires n < CHUNK && At(After(g0, Loads(n, x)), FirstN(n), n, if n == 0 then 0 else n - 1, n, n, false)
    ensures At(After(g0, Loads(n + 1, x)), FirstN(n + 1), n + 1, n, n + 1, n + 1, false)
  {
    NthIsNew(n);
    ThenLoad(g0, Loads(n, x), FirstN(n), n, if n == 0 then 0 else n - 1, n, n, false, Nth(n), x);
    assert Loads(n + 1, x) == Loads(n, x) + [Load(Nth(n), x)];
    assert FirstN(n)[n := Entry(Nth(n), None, true)] == FirstN(n + 1);
  }

  /** Load a whole chunk, boot, unload the first policy: the free place is below the hint.  A further registration
      finds no place, and depends on what the caller's handle happens to hold: the vacated place is filled, the policy
      at that handle is overwritten, or the policy is stored outside the table. */
  lemma SearchFindsNothing(g0: Registry, x: nat, y: nat)
    requires Initial(g0)
    ensures var g := After(g0, Loads(CHUNK, x) + [Boot] + [Unload(0)]);
      && Sound(g) && Stray(g, Nth(CHUNK)) && Loaded(g) == FirstN(CHUNK) - {0}
      && var (g', answer) := RegisterOutcome(g, Nth(CHUNK), y);
         if y == 0 then answer == Registered(0) && Sound(g')
         else if y < CHUNK then answer == Registered(y) && !Sound(g') && Loaded(g)[y] != Loaded(g')[y]
         else answer == Astray
  {
    Loading(g0, CHUNK, x);
    ThenBoot(g0, Loads(CHUNK, x), FirstN(CHUNK), CHUNK, CHUNK - 1, CHUNK, CHUNK, false);
    ThenUnload(g0, Loads(CHUNK, x) + [Boot], FirstN(CHUNK), CHUNK, CHUNK - 1, CHUNK, CHUNK, true, 0);
    VacantFirst(After(g0, Loads(CHUNK, x) + [Boot] + [Unload(0)]), y);
  }

  lemma VacantFirst(g: Registry, y: nat)
    requires At(g, FirstN(CHUNK) - {0}, CHUNK - 1, CHUNK - 1, CHUNK, CHUNK, true)
    ensures Stray(g, Nth(CHUNK))
    ensures var (g', answer) := RegisterOutcome(g, Nth(CHUNK), y);
      if y == 0 then answer == Registered(0) && Sound(g')
      else if y < CHUNK then answer == Registered(y) && !Sound(g') && y in Loaded(g) && y in Loaded(g')
                             && Loaded(g)[y] != Loaded(g')[y]
      else answer == Astray
  {
    NthIsNew(CHUNK);
    assert forall h :: h in Loaded(g) ==> h in FirstN(CHUNK) && Loaded(g)[h] == FirstN(CHUNK)[h];
    assert !NameLoaded(Loaded(g), Nth(CHUNK).name);
    assert !Findable(g);
    FindableIff(g);
    Counted(g);
    FindableIff(g);
    RegisterKeepsIff(g, Nth(CHUNK), y);
    RegisterRefusals(g, Nth(CHUNK), y);
    if y < CHUNK {
      RegisterSuccess(g, Nth(CHUNK), y, y);
    }
  }
}
