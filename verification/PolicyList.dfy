/**
 The policy list: registration, removal and the composition of verdicts, as code over the growable table.
 Every method runs inside an exclusive section or a dynamic section, so it is taken as one step.
 */
module PolicyList {
  import opened Base
  import opened PolicyTable
  import opened MacError

  /** Astray: no place was found and the caller's handle lies outside the table, where the policy is then stored. */
  datatype Result = Registered(handle: nat) | Refused(error: int) | Astray

  /** The policies in use, by handle. */
  ghost function Loaded(g: Registry): map<nat, Entry> {
    map i: nat | i < |g.table| && g.table[i].Some? :: g.table[i].value
  }

  ghost predicate NameLoaded(m: map<nat, Entry>, name: string) {
    exists h :: h in m && m[h].conf.name == name
  }

  lemma LoadedGrown(g: Registry)
    ensures Loaded(Grown(g)) == Loaded(g)
  {
  }

  lemma LoadedPlaced(g: Registry, conf: Conf, h: nat, hint: nat)
    requires h < |g.table|
    ensures Loaded(Placed(g, conf, h, hint)) == Loaded(g)[h := Entry(conf, NewSlot(g.free, conf), true)]
  {
  }

  lemma LoadedRemoved(g: Registry, h: nat)
    requires h < |g.table| && g.table[h].Some? && g.numloaded > 0
    requires g.table[h].value.slot.Some? ==> g.table[h].value.slot.value < MAX_SLOTS
    ensures Loaded(Removed(g, h)) == Loaded(g) - {h}
  {
  }

  /** The first free index, looked for from the very beginning. */
  function NaiveScan(table: Table): nat {
    if table == [] || table[0] == None then 0 else 1 + NaiveScan(table[1..])
  }

  lemma {:induction false} ScanFindsLowest(table: Table, h: nat)
    requires LowestFree(table, h)
    ensures NaiveScan(table) == h
  {
    if h > 0 {
      assert table[0].Some?;
      ScanFindsLowest(table[1..], h - 1);
    }
  }

  lemma {:induction false} ScanIsLowest(table: Table, i: nat)
    requires i < |table| && table[i] == None
    ensures LowestFree(table, NaiveScan(table))
  {
    if table[0] != None {
      ScanIsLowest(table[1..], i - 1);
      var rest := table[1..];
      forall j | 0 <= j < NaiveScan(table) ensures table[j].Some? {
        if j > 0 { assert rest[j - 1].Some?; }
      }
    }
  }

  /** The first free index from i on, or the end of the table. */
  function SearchFrom(table: Table, i: nat): (h: nat)
    requires i <= |table|
    ensures i <= h <= |table| && forall j :: i <= j < h ==> table[j].Some?
    ensures h < |table| ==> table[h] == None
    decreases |table| - i
  {
    if i == |table| || table[i] == None then i else SearchFrom(table, i + 1)
  }

  /** From the hint on, the lowest free handle is found exactly if no static place has been vacated. */
  lemma SearchIsLowestIff(g: Registry)
    requires Sound(g) && Findable(g)
    ensures SearchFrom(g.table, g.freehint) == NaiveScan(g.table) <==> Ok(g)
  {
    var h := SearchFrom(g.table, g.freehint);
    ScanIsLowest(g.table, h);
    if Ok(g) {
      ScanFindsLowest(g.table, h);
    }
  }

  /** The hint stays at or below the lowest free handle exactly if no static place is free. */
  lemma HintIff(g: Registry)
    requires g.staticmax <= g.freehint <= |g.table|
    requires forall i :: g.staticmax <= i < g.freehint ==> g.table[i].Some?
    ensures g.freehint <= NaiveScan(g.table) <==> forall i :: 0 <= i < g.staticmax ==> g.table[i].Some?
  {
    ScanPasses(g.table);
    if i :| 0 <= i < g.staticmax && g.table[i] == None {
      assert NaiveScan(g.table) <= i;
    }
  }

  lemma {:induction false} ScanPasses(table: Table)
    ensures NaiveScan(table) <= |table|
    ensures forall i :: 0 <= i < NaiveScan(table) ==> table[i].Some?
    ensures NaiveScan(table) < |table| ==> table[NaiveScan(table)] == None
  {
    if table != [] && table[0] != None {
      ScanPasses(table[1..]);
      forall i | 0 <= i < NaiveScan(table) ensures table[i].Some? {
        if i > 0 { assert table[1..][i - 1].Some?; }
      }
    }
  }

  /** Taking away a static policy of a list in order, and nothing else, puts a free place out of the search's reach. */
  lemma RemovalHintIff(g: Registry, h: nat)
    requires Ok(g) && h < |g.table| && g.table[h].Some?
    ensures g.numloaded > 0 && (g.table[h].value.slot.Some? ==> g.table[h].value.slot.value < MAX_SLOTS)
    ensures Removed(g, h).freehint <= NaiveScan(Removed(g, h).table) <==> h >= g.staticmax
  {
    CanRemove(g, h);
    HintIff(Removed(g, h));
    if h < g.staticmax {
      assert Removed(g, h).table[h] == None;
    }
  }

  /** What registering does: the new state of the list and the answer.  handle0 is what the caller's variable for the
      handle holds before the call; it stays there when the search finds no place. */
  ghost function RegisterOutcome(g: Registry, conf: Conf, handle0: nat): (Registry, Result)
    requires g.freehint <= |g.table|
  {
    if g.late && conf.notLate then (g, Refused(EPERM)) else AdmitOutcome(Grown(g), conf, handle0)
  }

  /** The same once the table has been grown. */
  ghost function AdmitOutcome(g: Registry, conf: Conf, handle0: nat): (Registry, Result)
    requires g.freehint <= |g.table|
  {
    if NameTaken(g.table, conf.name) then (g, Refused(EEXIST))
    else if !CanHaveSlot(g.free, conf) then (g, Refused(ENOMEM))
    else
      var h := SearchFrom(g.table, g.freehint);
      if h < |g.table| then (PolicyTable.Registered(g, conf, h), Registered(h))
      else if handle0 < |g.table| then (Placed(g, conf, handle0, g.freehint), Registered(handle0))
      else (g, Astray)
  }

  ghost predicate SlotLeft(free: Slots) {
    exists s :: 0 <= s < MAX_SLOTS && free[s]
  }

  /** The policy comes too late, its name is in use, or it wants a slot and none is left. */
  ghost predicate Refusal(g: Registry, conf: Conf) {
    (g.late && conf.notLate) || NameLoaded(Loaded(g), conf.name) || (conf.wantsSlot && !SlotLeft(g.free))
  }

  /** Nothing is refused and no place is found: the free places left are just the vacated static ones. */
  ghost predicate Stray(g: Registry, conf: Conf)
    requires g.staticmax <= |g.table|
  {
    !Refusal(g, conf) && g.numloaded < |g.table| == g.numloaded + Holes(g)
  }

  /** How a registration goes on after growth: refused, placed where the search ends, or left to the caller's handle. */
  lemma Cases(g: Registry, conf: Conf, handle0: nat)
    requires Sound(g) && |g.table| + CHUNK < WORD
    ensures var g1 := Grown(g);
            && Sound(g1) && Loaded(g1) == Loaded(g) && g1.free == g.free && Holes(g1) == Holes(g) && (Ok(g1) <==> Ok(g))
            && (Stray(g, conf) ==> g1 == g && !Ok(g) && SearchFrom(g.table, g.freehint) == |g.table|)
            && (!Refusal(g, conf) ==> !NameTaken(g1.table, conf.name) && CanHaveSlot(g.free, conf))
            && (!Refusal(g, conf) && !Stray(g, conf) ==>
                  var h := SearchFrom(g1.table, g1.freehint);
                  && FirstFree(g1.table, g1.freehint, h)
                  && RegisterOutcome(g, conf, handle0) == (PolicyTable.Registered(g1, conf, h), Registered(h)))
  {
    GrownSound(g);
    LoadedGrown(g);
    NameBothWays(Grown(g), conf.name);
    FindableIff(Grown(g));
    Counted(g);
    var h := SearchFrom(Grown(g).table, Grown(g).freehint);
    assert Findable(Grown(g)) <==> h < |Grown(g).table|;
  }

  /** The policy of a registration that finds no place is stored where the caller's handle happens to point, and
      that is neither a vacated place nor after boot. */
  ghost predicate Clobbers(g: Registry, conf: Conf, handle0: nat)
    requires g.staticmax <= |g.table|
  {
    Stray(g, conf) && handle0 < |g.table| && !(g.late && handle0 !in Loaded(g))
  }

  /** Registration keeps the list sound unless it finds no place and stores the policy over another one, or before
      boot.  It vacates no static place, and fills one only if it finds no place. */
  lemma RegisterKeepsIff(g: Registry, conf: Conf, handle0: nat)
    requires Sound(g) && |g.table| + CHUNK < WORD
    ensures var g' := RegisterOutcome(g, conf, handle0).0;
            && g'.late == g.late
            && (Sound(g') <==> !Clobbers(g, conf, handle0))
            && (Sound(g') ==> Holes(g') == Holes(g) - (if Stray(g, conf) && handle0 < |g.table| then 1 else 0))
  {
    Cases(g, conf, handle0);
    if Stray(g, conf) {
      StrayKeepsIff(g, conf, handle0);
    } else if !Refusal(g, conf) {
      RegisteredSound(Grown(g), conf, SearchFrom(Grown(g).table, Grown(g).freehint));
    }
  }

  lemma StrayKeepsIff(g: Registry, conf: Conf, handle0: nat)
    requires Sound(g) && |g.table| + CHUNK < WORD && Stray(g, conf)
    ensures var g' := RegisterOutcome(g, conf, handle0).0;
            && g'.late == g.late
            && (Sound(g') <==> !Clobbers(g, conf, handle0))
            && (Sound(g') ==> Holes(g') == Holes(g) - (if handle0 < |g.table| then 1 else 0))
  {
    Cases(g, conf, handle0);
    FindableIff(g);
    if handle0 < |g.table| { StrayIff(g, conf, handle0); }
  }

  /** A table in order stays in order. */
  lemma RegisterKeeps(g: Registry, conf: Conf, handle0: nat)
    requires Ok(g) && |g.table| + CHUNK < WORD
    ensures Ok(RegisterOutcome(g, conf, handle0).0) && RegisterOutcome(g, conf, handle0).0.late == g.late
  {
    RegisterKeepsIff(g, conf, handle0);
    Counted(g);
    Counted(RegisterOutcome(g, conf, handle0).0);
  }

  /** When registration is refused, and with which error, and when it goes astray. */
  lemma RegisterRefusals(g: Registry, conf: Conf, handle0: nat)
    requires Sound(g) && |g.table| + CHUNK < WORD
    ensures var (g', res) := RegisterOutcome(g, conf, handle0);
            && (res == Refused(EPERM) <==> g.late && conf.notLate)
            && (res == Refused(EEXIST) <==> !(g.late && conf.notLate) && NameLoaded(Loaded(g), conf.name))
            && (res == Refused(ENOMEM) <==> !(g.late && conf.notLate) && !NameLoaded(Loaded(g), conf.name)
                                            && conf.wantsSlot && !SlotLeft(g.free))
            && (res.Refused? <==> Refusal(g, conf))
            && (res.Astray? <==> Stray(g, conf) && handle0 >= |g.table|)
            && (res.Refused? ==> Loaded(g') == Loaded(g) && g'.free == g.free && g'.staticmax == g.staticmax)
  {
    Cases(g, conf, handle0);
    NameBothWays(Grown(g), conf.name);
  }

  /**
   A successful registration puts in the policy, gives it the lowest free slot and changes nothing else.  The handle is
   the lowest free one at or above the hint, and the lowest of all in a table in order; if there is none, it is the
   one the caller had.  The place is static before boot, or when the policy cannot be unloaded and comes right after
   the static ones.
   */
  lemma RegisterSuccess(g: Registry, conf: Conf, handle0: nat, h: nat)
    requires Sound(g) && |g.table| + CHUNK < WORD
    requires RegisterOutcome(g, conf, handle0).1 == Registered(h)
    ensures var g' := RegisterOutcome(g, conf, handle0).0;
            && Loaded(g') == Loaded(g)[h := Entry(conf, NewSlot(g.free, conf), true)]
            && (forall s :: 0 <= s < MAX_SLOTS ==> (g'.free[s] <==> g.free[s] && NewSlot(g.free, conf) != Some(s)))
            && (NewSlot(g.free, conf).Some? <==> conf.wantsSlot)
            && (forall s :: 0 <= s < MAX_SLOTS && conf.wantsSlot && g.free[s] ==> NewSlot(g.free, conf).value <= s)
    ensures Stray(g, conf) ==> h == handle0
    ensures !Stray(g, conf) ==>
      && h !in Loaded(g) && g.freehint <= h && (forall i :: g.staticmax <= i < h ==> i in Loaded(g))
      && (Ok(g) ==> forall i :: 0 <= i < h ==> i in Loaded(g))
    ensures !Stray(g, conf) ==>
      (h < RegisterOutcome(g, conf, handle0).0.staticmax <==> !g.late || (!conf.unloadOk && h == g.staticmax))
  {
    Cases(g, conf, handle0);
    RegisterRefusals(g, conf, handle0);
    LoadedPlaced(Grown(g), conf, h, if Stray(g, conf) then g.freehint else h + 1);
    SlotMeaning(g.free, conf);
    if !Stray(g, conf) {
      FoundPlace(Grown(g), conf, h);
    }
  }

  lemma {:induction false} SlotMeaning(free: Slots, conf: Conf)
    requires CanHaveSlot(free, conf)
    ensures forall s :: 0 <= s < MAX_SLOTS ==> (NewFree(free, conf)[s] <==> free[s] && NewSlot(free, conf) != Some(s))
    ensures NewSlot(free, conf).Some? <==> conf.wantsSlot
    ensures forall s :: 0 <= s < MAX_SLOTS && conf.wantsSlot && free[s] ==> NewSlot(free, conf).value <= s
  {
  }

  lemma FoundPlace(g: Registry, conf: Conf, h: nat)
    requires Sound(g) && FirstFree(g.table, g.freehint, h)
    ensures h !in Loaded(g) && g.freehint <= h && (forall i :: g.staticmax <= i < h ==> i in Loaded(g))
    ensures Ok(g) ==> forall i :: 0 <= i < h ==> i in Loaded(g)
    ensures h < PolicyTable.Registered(g, conf, h).staticmax <==> !g.late || (!conf.unloadOk && h == g.staticmax)
  {
    RegisteredHoles(g, conf, h);
    assert forall i :: g.staticmax <= i < h ==> g.table[i].Some?;
  }

  lemma NameBothWays(g: Registry, name: string)
    ensures NameTaken(g.table, name) <==> NameLoaded(Loaded(g), name)
  {
    if NameTaken(g.table, name) {
      var i :| 0 <= i < |g.table| && g.table[i].Some? && g.table[i].value.conf.name == name;
      assert i in Loaded(g) && Loaded(g)[i].conf.name == name;
    }
    if NameLoaded(Loaded(g), name) {
      var h :| h in Loaded(g) && Loaded(g)[h].conf.name == name;
      assert g.table[h].Some?;
    }
  }

  /** What removing does to a handle that is in use. */
  ghost function UnregisterOutcome(g: Registry, h: nat): (Registry, int)
    requires Sound(g) && h in Loaded(g)
  {
    CanRemove(g, h);
    if g.table[h].value.conf.unloadOk then (Removed(g, h), 0) else (g, EBUSY)
  }

  /** Removal takes away the one policy and frees the slot it owned, and no other. */
  lemma UnregisterMeaning(g: Registry, h: nat)
    requires Sound(g) && h in Loaded(g)
    ensures var (g', error) := UnregisterOutcome(g, h);
            var e := Loaded(g)[h];
            && (error == 0 <==> e.conf.unloadOk) && (error != 0 ==> error == EBUSY && g' == g)
            && (error == 0 ==> Loaded(g') == Loaded(g) - {h}
                               && forall s :: 0 <= s < MAX_SLOTS ==> (g'.free[s] <==> g.free[s] || e.slot == Some(s)))
            && (Sound(g') <==> error != 0 || !(h == 0 && g.maxindex == 0))
            && (Ok(g) ==> (Ok(g') <==> error != 0 || (h >= g.staticmax && !(h == 0 && g.maxindex == 0))))
  {
    CanRemove(g, h);
    RemovedSoundIff(g, h);
    if Ok(g) { RemovedOkIff(g, h); }
    if g.table[h].value.conf.unloadOk { LoadedRemoved(g, h); }
  }

  /** Loading a policy into a free place and removing it again restores the policies and the slots. */
  lemma RegisterThenUnregister(g: Registry, conf: Conf, handle0: nat, h: nat)
    requires Sound(g) && |g.table| + CHUNK < WORD && conf.unloadOk && g.late
    requires RegisterOutcome(g, conf, handle0).1 == Registered(h) && h !in Loaded(g)
    ensures var g1 := RegisterOutcome(g, conf, handle0).0;
            && Sound(g1) && h in Loaded(g1)
            && var g2 := UnregisterOutcome(g1, h).0;
               Loaded(g2) == Loaded(g) && g2.free == g.free
  {
    RegisterKeepsIff(g, conf, handle0);
    RegisterSuccess(g, conf, handle0, h);
    var g1 := RegisterOutcome(g, conf, handle0).0;
    UnregisterMeaning(g1, h);
    SlotReturns(g.free, g1.free, UnregisterOutcome(g1, h).0.free, NewSlot(g.free, conf));
    PutAndTake(Loaded(g), h, Entry(conf, NewSlot(g.free, conf), true));
  }

  lemma {:induction false} SlotReturns(free: Slots, taken: Slots, given: Slots, slot: Option<nat>)
    requires slot.Some? ==> slot.value < MAX_SLOTS && free[slot.value]
    requires forall s :: 0 <= s < MAX_SLOTS ==> (taken[s] <==> free[s] && slot != Some(s))
    requires forall s :: 0 <= s < MAX_SLOTS ==> (given[s] <==> taken[s] || slot == Some(s))
    ensures given == free
  {
  }

  lemma PutAndTake(m: map<nat, Entry>, h: nat, e: Entry)
    requires h !in m
    ensures m[h := e] - {h} == m
  {
  }

  lemma NothingLoaded(g: Registry)
    requires Initial(g)
    ensures Loaded(g) == map[]
  {
  }

  class PolicyRegistry {
    var numloaded: nat
    var max: nat
    var maxindex: nat
    var staticmax: nat
    var chunks: nat
    var freehint: nat
    var entries: array<Option<Entry>>
    var slotsFree: Slots
    var late: bool

    ghost function View(): Registry
      reads this, entries
    {
      Registry(entries[..], numloaded, maxindex, staticmax, freehint, slotsFree, late)
    }

    ghost predicate Valid()
      reads this, entries
    {
      Sound(View()) && max == entries.Length == chunks * CHUNK
    }

    /** mac_policy_init. */
    constructor ()
      ensures Valid() && Initial(View()) && fresh(entries)
    {
      numloaded, max, maxindex, staticmax, freehint, chunks := 0, CHUNK, 0, 0, 0, 1;
      entries := new Option<Entry>[CHUNK](_ => None);
      slotsFree := ALL_SLOTS;
      late := false;
      new;
      InitialOk(View());
    }

    /** The kernel has booted: from now on static places are given only to policies that cannot be unloaded. */
    method BootDone()
      requires Valid()
      modifies `late
      ensures Valid() && View() == old(View()).(late := true)
    {
      late := true;
    }

    /** Lines 842-866: one more chunk when the table is full; no entry moves. */
    method GrowIfFull()
      requires Valid() && max + CHUNK < WORD
      modifies this
      ensures Valid() && View() == old(Grown(View())) && numloaded < max
      ensures entries == old(entries) || fresh(entries)
    {
      GrownSound(View());
      if numloaded >= max {
        var bigger := new Option<Entry>[CHUNK * (chunks + 1)](_ => None);
        forall i | 0 <= i < entries.Length {
          bigger[i] := entries[i];
        }
        assert bigger[..] == entries[..] + seq(CHUNK, _ => None);
        entries := bigger;
        max := max + CHUNK;
        chunks := chunks + 1;
        assert View().table == old(Grown(View())).table;
      }
    }

    /** Lines 869-878. */
    method FindName(name: string) returns (found: bool)
      requires Valid()
      ensures found <==> NameTaken(entries[..], name)
    {
      var i := 0;
      while i <= maxindex
        invariant 0 <= i <= maxindex + 1
        invariant forall j :: 0 <= j < i && entries[j].Some? ==> entries[j].value.conf.name != name
      {
        if entries[i].Some? && entries[i].value.conf.name == name {
          assert View().table[i] == entries[i];
          return true;
        }
        i := i + 1;
      }
      found := false;
      assert forall j :: 0 <= j < entries.Length && entries[j].Some? ==> View().table[j].Some?;
    }

    /** Lines 906-912: the search from the hint, which leaves the handle as it was if it finds nothing. */
    method FindHandle(handle0: nat) returns (h: nat)
      requires freehint <= max == entries.Length
      modifies `freehint
      ensures var end := SearchFrom(entries[..], old(freehint));
        if end < max then h == end && freehint == end + 1 else h == handle0 && freehint == old(freehint)
      ensures SearchFrom(entries[..], old(freehint)) < max
        <==> exists i :: old(freehint) <= i < max && entries[i].None?
    {
      ghost var table := entries[..];
      var i := freehint;
      while i < max
        invariant old(freehint) <= i <= max && freehint == old(freehint)
        invariant SearchFrom(table, old(freehint)) == SearchFrom(table, i)
      {
        assert table[i] == entries[i];
        if entries[i].None? {
          freehint := i + 1;
          return i;
        }
        i := i + 1;
      }
      h := handle0;
    }

    /** Lines 880-889: a policy that asks for a label slot gets the lowest free one. */
    method ReserveSlot(conf: Conf) returns (ok: bool, slot: Option<nat>)
      modifies `slotsFree
      ensures ok <==> CanHaveSlot(old(slotsFree), conf)
      ensures ok ==> slot == NewSlot(old(slotsFree), conf)
      ensures slotsFree == NewFree(old(slotsFree), conf)
    {
      ok, slot := true, None;
      if conf.wantsSlot {
        var bit := Ffs(slotsFree);
        if bit == 0 {
          return false, None;
        }
        slot := Some(bit - 1);
        slotsFree := slotsFree[bit - 1 := false];
      }
    }

    /** Lines 921-933. */
    method Store(conf: Conf, slot: Option<nat>, h: nat)
      requires h < entries.Length
      modifies this`staticmax, this`maxindex, this`numloaded, entries
      ensures entries[..] == old(entries[..])[h := Some(Entry(conf, slot, true))]
      ensures numloaded == old(numloaded) + 1
      ensures maxindex == if h > old(maxindex) then h else old(maxindex)
      ensures staticmax
           == if !late || (!conf.unloadOk && h == old(staticmax)) then old(staticmax) + 1 else old(staticmax)
    {
      if !late || (!conf.unloadOk && h == staticmax) {
        staticmax := staticmax + 1;
      }
      entries[h] := Some(Entry(conf, slot, true));
      if h > maxindex {
        maxindex := h;
      }
      numloaded := numloaded + 1;
    }

    /** Lines 868-933, once the table has been grown. */
    method Admit(conf: Conf, handle0: nat) returns (res: Result)
      requires Valid() && AdmitOutcome(View(), conf, handle0).1 != Astray
      modifies this, entries
      ensures (View(), res) == AdmitOutcome(old(View()), conf, handle0)
      ensures entries == old(entries) && max == old(max) && chunks == old(chunks)
    {
      ghost var g := View();
      var found := FindName(conf.name);
      if found {
        return Refused(EEXIST);
      }
      var ok, slot := ReserveSlot(conf);
      if !ok {
        return Refused(ENOMEM);
      }
      var h := Place(conf, slot, handle0, g);
      return Registered(h);
    }

    /** Lines 905-933: find a place and fill it. */
    method Place(conf: Conf, slot: Option<nat>, handle0: nat, ghost g: Registry) returns (h: nat)
      requires g.freehint <= |g.table| && View() == g.(free := slotsFree) && max == entries.Length
      requires slot == NewSlot(g.free, conf) && slotsFree == NewFree(g.free, conf)
      requires SearchFrom(g.table, g.freehint) < |g.table| || handle0 < |g.table|
      modifies this`freehint, this`staticmax, this`maxindex, this`numloaded, entries
      ensures var end := SearchFrom(g.table, g.freehint);
        if end < |g.table| then h == end && View() == PolicyTable.Registered(g, conf, h)
        else h == handle0 && View() == Placed(g, conf, h, g.freehint)
    {
      h := FindHandle(handle0);
      ghost var hint := freehint;
      Store(conf, slot, h);
      assert View() == Placed(g, conf, h, hint);
    }

    /** handle0 is what *handlep holds before the call. */
    method Register(conf: Conf, handle0: nat) returns (res: Result)
      requires Valid() && max + CHUNK < WORD && RegisterOutcome(View(), conf, handle0).1 != Astray
      modifies this, entries
      ensures old(View().freehint <= |View().table|) && (View(), res) == RegisterOutcome(old(View()), conf, handle0)
      ensures old(View().staticmax <= |View().table|) && (Valid() <==> !old(Clobbers(View(), conf, handle0)))
      ensures max == entries.Length == chunks * CHUNK && (entries == old(entries) || fresh(entries))
    {
      RegisterKeepsIff(View(), conf, handle0);
      if late && conf.notLate {
        return Refused(EPERM);
      }
      GrowIfFull();
      res := Admit(conf, handle0);
    }

    /** Removal of a handle that is in use; the list is no longer sound if maxindex wraps. */
    method Unregister(h: nat) returns (error: int)
      requires Valid() && h < entries.Length && entries[h].Some?
      modifies this, entries
      ensures h in old(Loaded(View())) && (View(), error) == old(UnregisterOutcome(View(), h))
      ensures max == old(max) == entries.Length && entries == old(entries)
      ensures Valid() <==> error != 0 || !(h == 0 && old(maxindex) == 0)
    {
      assert View().table[h] == entries[h];
      UnregisterMeaning(View(), h);
      CanRemove(View(), h);
      var e := entries[h].value;
      if !e.registered {
        return 0;
      }
      if !e.conf.unloadOk {
        return EBUSY;
      }
      Drop(h, e.slot);
      error := 0;
    }

    /** Lines 1001-1012. */
    method Drop(h: nat, slot: Option<nat>)
      requires h < entries.Length && numloaded > 0 && maxindex < WORD && (slot.Some? ==> slot.value < MAX_SLOTS)
      modifies this`freehint, this`maxindex, this`numloaded, this`slotsFree, entries
      requires entries[h].Some? && slot == entries[h].value.slot
      ensures View() == old(Removed(View(), h))
    {
      entries[h] := None;
      if h < freehint && h >= staticmax {
        freehint := h;
      }
      if h == maxindex {
        maxindex := (maxindex + WORD - 1) % WORD;
      }
      numloaded := numloaded - 1;
      if slot.Some? {
        slotsFree := slotsFree[slot.value := true];
      }
    }
  }
}
