/** The policy table as a value: which handles are in use, the counters kept about them, and the label slots. */
module PolicyTable {
  import opened Base

  const CHUNK := 512
  const MAX_SLOTS := 7
  const WORD := 0x1_0000_0000

  /** What the framework reads of a policy's configuration. */
  datatype Conf = Conf(name: string, wantsSlot: bool, unloadOk: bool, notLate: bool)

  /** A policy in the table; `registered` is MPC_RUNTIME_FLAG_REGISTERED. */
  datatype Entry = Entry(conf: Conf, slot: Option<nat>, registered: bool)

  type Table = seq<Option<Entry>>

  /** The word that records free label slots, as its seven bits in use. */
  type Slots = f: seq<bool> | |f| == MAX_SLOTS witness seq(MAX_SLOTS, _ => true)

  const ALL_SLOTS: Slots := seq(MAX_SLOTS, _ => true)

  /** ffs from bit s on: 1 + the lowest set bit, 0 when there is none. */
  function FfsFrom(free: Slots, s: nat): (r: nat)
    requires s <= MAX_SLOTS
    ensures r <= MAX_SLOTS
    ensures r > 0 ==> s < r && free[r - 1] && forall i :: s <= i < r - 1 ==> !free[i]
    ensures r == 0 ==> forall i :: s <= i < MAX_SLOTS ==> !free[i]
    decreases MAX_SLOTS - s
  {
    if s == MAX_SLOTS then 0 else if free[s] then s + 1 else FfsFrom(free, s + 1)
  }

  function Ffs(free: Slots): (r: nat)
    ensures r <= MAX_SLOTS
    ensures r > 0 ==> free[r - 1] && forall i :: 0 <= i < r - 1 ==> !free[i]
    ensures r == 0 ==> forall i :: 0 <= i < MAX_SLOTS ==> !free[i]
  {
    FfsFrom(free, 0)
  }

  function Live(table: Table): (n: nat)
    ensures n <= |table|
  {
    if table == [] then 0 else (if table[0].Some? then 1 else 0) + Live(table[1..])
  }

  /** Exactly the slots that some policy owns are taken, and no two policies own the same one. */
  ghost predicate SlotsOk(table: Table, free: Slots) {
    && (forall i :: 0 <= i < |table| && table[i].Some? && table[i].value.slot.Some?
         ==> table[i].value.slot.value < MAX_SLOTS)
    && (forall i, j ::
          (0 <= i < |table| && 0 <= j < |table| && table[i].Some? && table[j].Some?
           && table[i].value.slot.Some? && table[i].value.slot == table[j].value.slot) ==> i == j)
    && (forall i :: 0 <= i < |table| && table[i].Some?
         ==> (table[i].value.slot.Some? <==> table[i].value.conf.wantsSlot))
    && (forall s :: 0 <= s < MAX_SLOTS ==> (!free[s] <==> Owned(table, s)))
  }

  ghost predicate Owned(table: Table, s: nat) {
    exists i :: 0 <= i < |table| && Owns(table, i, s)
  }

  predicate Owns(table: Table, i: nat, s: nat)
    requires i < |table|
  {
    table[i].Some? && table[i].value.slot == Some(s)
  }

  predicate NamesUnique(table: Table) {
    forall i, j ::
      (0 <= i < |table| && 0 <= j < |table| && table[i].Some? && table[j].Some?
       && table[i].value.conf.name == table[j].value.conf.name) ==> i == j
  }

  datatype Registry = Registry(table: Table, numloaded: nat, maxindex: nat, staticmax: nat, freehint: nat,
                               free: Slots, late: bool)

  /** What the list keeps even when static policies are taken away: from the static part up to the hint every place is
      taken, and there is nobody behind maxindex. */
  ghost predicate Sound(g: Registry) {
    && 0 < |g.table| < WORD
    && g.numloaded == Live(g.table)
    && g.staticmax <= g.freehint <= |g.table|
    && (forall i :: g.staticmax <= i < g.freehint ==> g.table[i].Some?)
    && g.maxindex < |g.table|
    && (forall i :: 0 <= i < |g.table| && g.table[i].Some? ==> i <= g.maxindex && g.table[i].value.registered)
    && NamesUnique(g.table)
    && SlotsOk(g.table, g.free)
    && (!g.late ==> g.staticmax == g.freehint && forall i :: g.staticmax <= i < |g.table| ==> g.table[i] == None)
  }

  /** A sound list in which no static place has been vacated. */
  ghost predicate Ok(g: Registry) {
    Sound(g) && forall i :: 0 <= i < g.staticmax ==> g.table[i].Some?
  }

  /** Static places without a policy. */
  function Holes(g: Registry): (n: int)
    requires g.staticmax <= |g.table|
    ensures 0 <= n <= g.staticmax
  {
    g.staticmax - Live(g.table[..g.staticmax])
  }

  /** Policies behind the static part. */
  function Dynamic(g: Registry): nat
    requires g.staticmax <= |g.table|
  {
    Live(g.table[g.staticmax..])
  }

  // ---- counting

  lemma {:induction false} LiveUpdate(table: Table, h: nat, x: Option<Entry>)
    requires h < |table|
    ensures Live(table[h := x]) == Live(table) - (if table[h].Some? then 1 else 0) + (if x.Some? then 1 else 0)
  {
    if h == 0 {
      assert table[h := x][1..] == table[1..];
    } else {
      assert table[h := x][1..] == table[1..][h - 1 := x];
      LiveUpdate(table[1..], h - 1, x);
    }
  }

  lemma {:induction false} LiveSplit(a: Table, b: Table)
    ensures Live(a + b) == Live(a) + Live(b)
  {
    if a == [] {
      assert a + b == b;
    } else {
      assert (a + b)[1..] == a[1..] + b;
      LiveSplit(a[1..], b);
    }
  }

  lemma {:induction false} LiveFull(table: Table)
    requires forall i :: 0 <= i < |table| ==> table[i].Some?
    ensures Live(table) == |table|
  {
    if table != [] { LiveFull(table[1..]); }
  }

  lemma {:induction false} LiveEmpty(table: Table)
    ensures Live(table) == 0 <==> forall i :: 0 <= i < |table| ==> table[i] == None
  {
    if table != [] {
      LiveEmpty(table[1..]);
      if Live(table) == 0 {
        forall i | 0 <= i < |table| ensures table[i] == None {
          if i > 0 { assert table[1..][i - 1] == None; }
        }
      } else if table[0] == None {
        var i :| 0 <= i < |table[1..]| && table[1..][i] != None;
        assert table[i + 1] != None;
      }
    }
  }

  lemma {:induction false} FullIff(table: Table)
    ensures Live(table) == |table| <==> forall i :: 0 <= i < |table| ==> table[i].Some?
  {
    if table != [] {
      FullIff(table[1..]);
      if Live(table) == |table| {
        forall i | 0 <= i < |table| ensures table[i].Some? {
          if i > 0 { assert table[1..][i - 1].Some?; }
        }
      } else if table[0].Some? {
        var i :| 0 <= i < |table[1..]| && table[1..][i].None?;
        assert table[i + 1].None?;
      }
    }
  }

  lemma FullBetween(table: Table, n: nat, m: nat)
    requires n <= m <= |table|
    ensures Live(table[n..m]) == m - n <==> forall i :: n <= i < m ==> table[i].Some?
  {
    var part := table[n..m];
    FullIff(part);
    assert forall i :: n <= i < m ==> part[i - n] == table[i];
    assert forall i :: 0 <= i < |part| ==> part[i] == table[n + i];
  }

  /** Every policy is static or dynamic, and the static places are taken but for the holes. */
  lemma Counted(g: Registry)
    requires Sound(g)
    ensures g.numloaded == g.staticmax - Holes(g) + Dynamic(g)
    ensures Holes(g) == 0 <==> Ok(g)
    ensures Dynamic(g) == 0 <==> forall i :: g.staticmax <= i < |g.table| ==> g.table[i] == None
  {
    assert g.table == g.table[..g.staticmax] + g.table[g.staticmax..];
    LiveSplit(g.table[..g.staticmax], g.table[g.staticmax..]);
    assert g.table[..g.staticmax] == g.table[0..g.staticmax];
    FullBetween(g.table, 0, g.staticmax);
    NoneAbove(g.table, g.staticmax);
  }

  /** There is a place at or above the hint. */
  ghost predicate Findable(g: Registry) {
    exists i :: g.freehint <= i < |g.table| && g.table[i] == None
  }

  /** Pigeonhole: there is a place at or above the hint exactly if free places are left besides the vacated ones. */
  lemma FindableIff(g: Registry)
    requires Sound(g)
    ensures Findable(g) <==> g.numloaded + Holes(g) < |g.table|
  {
    Counted(g);
    assert g.table[g.staticmax..] == g.table[g.staticmax..|g.table|];
    FullBetween(g.table, g.staticmax, |g.table|);
  }

  /** A table in order that is not full has a free entry at or above the hint. */
  lemma FreeAboveHint(g: Registry)
    requires Ok(g) && g.numloaded < |g.table|
    ensures exists i :: g.freehint <= i < |g.table| && g.table[i] == None
  {
    Counted(g);
    FindableIff(g);
  }

  /** In a table in order, with no more policies than static places, nothing lives above them. */
  lemma OnlyStatic(g: Registry)
    requires Ok(g)
    ensures g.numloaded >= g.staticmax
    ensures g.numloaded == g.staticmax <==> forall i :: g.staticmax <= i < |g.table| ==> g.table[i] == None
  {
    Counted(g);
  }

  lemma NoneAbove(table: Table, n: nat)
    requires n <= |table|
    ensures Live(table[n..]) == 0 <==> forall i :: n <= i < |table| ==> table[i] == None
  {
    var b := table[n..];
    LiveEmpty(b);
    if Live(b) == 0 {
      forall i | n <= i < |table| ensures table[i] == None { assert b[i - n] == None; }
    } else {
      var i :| 0 <= i < |b| && b[i] != None;
      assert table[n + i] != None;
    }
  }

  // ---- registering

  function Grown(g: Registry): Registry {
    if g.numloaded >= |g.table| then g.(table := g.table + seq(CHUNK, _ => None)) else g
  }

  /** Room that growing makes lies above the hint and leaves the static part alone. */
  lemma GrownSound(g: Registry)
    requires Sound(g) && |g.table| + CHUNK < WORD
    ensures Sound(Grown(g)) && Grown(g).numloaded < |Grown(g).table|
    ensures Holes(Grown(g)) == Holes(g) && (Ok(Grown(g)) <==> Ok(g))
    ensures g.numloaded >= |g.table| ==> Findable(Grown(g))
  {
    if g.numloaded >= |g.table| {
      var tail: Table := seq(CHUNK, _ => None);
      LiveSplit(g.table, tail);
      LiveEmpty(tail);
      GrownSlots(g.table, tail, g.free);
      assert Grown(g).table[..g.staticmax] == g.table[..g.staticmax];
      assert Grown(g).table[|g.table|] == None;
    }
    FullIff(g.table);
  }

  lemma {:induction false} GrownSlots(table: Table, tail: Table, free: Slots)
    requires SlotsOk(table, free) && forall i :: 0 <= i < |tail| ==> tail[i] == None
    ensures SlotsOk(table + tail, free)
  {
    forall s | 0 <= s < MAX_SLOTS ensures !free[s] <==> Owned(table + tail, s) {
      if Owned(table, s) {
        var i :| 0 <= i < |table| && Owns(table, i, s);
        assert Owns(table + tail, i, s);
      }
      if Owned(table + tail, s) {
        var i :| 0 <= i < |table + tail| && Owns(table + tail, i, s);
        assert Owns(table, i, s);
      }
    }
  }

  ghost predicate NameTaken(table: Table, name: string) {
    exists i :: 0 <= i < |table| && table[i].Some? && table[i].value.conf.name == name
  }

  /** The slot a new policy gets. */
  function NewSlot(free: Slots, conf: Conf): Option<nat> {
    if conf.wantsSlot && Ffs(free) > 0 then Some(Ffs(free) - 1) else None
  }

  function NewFree(free: Slots, conf: Conf): Slots {
    if conf.wantsSlot && Ffs(free) > 0 then free[Ffs(free) - 1 := false] else free
  }

  predicate CanHaveSlot(free: Slots, conf: Conf) {
    conf.wantsSlot ==> Ffs(free) > 0
  }

  /** The first free place from `from` on. */
  predicate FirstFree(table: Table, from: nat, h: nat) {
    from <= h < |table| && table[h] == None && forall i :: from <= i < h ==> table[i].Some?
  }

  predicate LowestFree(table: Table, h: nat) {
    FirstFree(table, 0, h)
  }

  /** The policy is put at h, and the search for a place will start from `hint`. */
  function Placed(g: Registry, conf: Conf, h: nat, hint: nat): Registry
    requires h < |g.table|
  {
    Registry(
      g.table[h := Some(Entry(conf, NewSlot(g.free, conf), true))],
      g.numloaded + 1,
      if h > g.maxindex then h else g.maxindex,
      if !g.late || (!conf.unloadOk && h == g.staticmax) then g.staticmax + 1 else g.staticmax,
      hint,
      NewFree(g.free, conf),
      g.late)
  }

  function Registered(g: Registry, conf: Conf, h: nat): Registry
    requires h < |g.table|
  {
    Placed(g, conf, h, h + 1)
  }

  /** At the first free place from the hint on a policy may be put; no static place is filled or vacated by that. */
  lemma {:induction false} RegisteredSound(g: Registry, conf: Conf, h: nat)
    requires Sound(g) && FirstFree(g.table, g.freehint, h)
    requires !NameTaken(g.table, conf.name) && CanHaveSlot(g.free, conf)
    ensures Sound(Registered(g, conf, h)) && Holes(Registered(g, conf, h)) == Holes(g)
    ensures Ok(Registered(g, conf, h)) <==> Ok(g)
  {
    var g' := Registered(g, conf, h);
    LiveUpdate(g.table, h, Some(Entry(conf, NewSlot(g.free, conf), true)));
    RegisteredSlots(g.table, g.free, conf, h);
    RegisteredNames(g.table, Entry(conf, NewSlot(g.free, conf), true), h);
    RegisteredHoles(g, conf, h);
    RegisteredPlaces(g, conf, h);
    Counted(g);
    Counted(g');
  }

  lemma {:induction false} RegisteredPlaces(g: Registry, conf: Conf, h: nat)
    requires Sound(g) && FirstFree(g.table, g.freehint, h)
    ensures var g' := Registered(g, conf, h);
      && g'.staticmax <= g'.freehint <= |g'.table| && g'.maxindex < |g'.table|
      && (forall i :: g'.staticmax <= i < g'.freehint ==> g'.table[i].Some?)
      && (forall i :: 0 <= i < |g'.table| && g'.table[i].Some? ==> i <= g'.maxindex && g'.table[i].value.registered)
      && (!g'.late ==>
            g'.staticmax == g'.freehint && forall i :: g'.staticmax <= i < |g'.table| ==> g'.table[i] == None)
  {
    assert !g.late ==> g.table[g.staticmax] == None;
  }

  lemma RegisteredHoles(g: Registry, conf: Conf, h: nat)
    requires g.staticmax <= g.freehint <= |g.table| && FirstFree(g.table, g.freehint, h)
    requires !g.late ==> g.staticmax == g.freehint && forall i :: g.staticmax <= i < |g.table| ==> g.table[i] == None
    ensures !g.late ==> h == g.staticmax
    ensures Registered(g, conf, h).staticmax <= |g.table| && Holes(Registered(g, conf, h)) == Holes(g)
  {
    var g' := Registered(g, conf, h);
    assert !g.late ==> g.table[g.staticmax] == None;
    if g'.staticmax > g.staticmax {
      assert h == g.staticmax;
      assert g'.table[..g'.staticmax] == g.table[..g.staticmax] + [g'.table[h]];
      LiveSplit(g.table[..g.staticmax], [g'.table[h]]);
    } else {
      assert g'.table[..g'.staticmax] == g.table[..g.staticmax];
    }
  }

  /** A search that finds nothing leaves the handle to the caller, and the policy is put at h, whatever is there.  The
      list stays sound exactly if that place is vacant and the kernel has booted; a vacated static place is filled. */
  lemma StrayIff(g: Registry, conf: Conf, h: nat)
    requires Sound(g) && !Findable(g) && h < |g.table|
    requires !NameTaken(g.table, conf.name) && CanHaveSlot(g.free, conf)
    ensures Sound(Placed(g, conf, h, g.freehint)) <==> g.late && g.table[h] == None
    ensures g.late && g.table[h] == None ==>
      h < g.staticmax && Holes(Placed(g, conf, h, g.freehint)) == Holes(g) - 1
  {
    var e := Entry(conf, NewSlot(g.free, conf), true);
    LiveUpdate(g.table, h, Some(e));
    if g.late && g.table[h] == None {
      assert h < g.staticmax;
      RegisteredSlots(g.table, g.free, conf, h);
      RegisteredNames(g.table, e, h);
      assert g.table[h := Some(e)][..g.staticmax] == g.table[..g.staticmax][h := Some(e)];
      LiveUpdate(g.table[..g.staticmax], h, Some(e));
    }
  }

  lemma RegisteredNames(table: Table, e: Entry, h: nat)
    requires h < |table| && table[h] == None && NamesUnique(table) && !NameTaken(table, e.conf.name)
    ensures NamesUnique(table[h := Some(e)])
  {
  }

  lemma {:induction false} RegisteredSlots(table: Table, free: Slots, conf: Conf, h: nat)
    requires h < |table| && table[h] == None && SlotsOk(table, free) && CanHaveSlot(free, conf)
    ensures SlotsOk(table[h := Some(Entry(conf, NewSlot(free, conf), true))], NewFree(free, conf))
  {
    var slot := NewSlot(free, conf);
    var table' := table[h := Some(Entry(conf, slot, true))];
    forall s | 0 <= s < MAX_SLOTS ensures !NewFree(free, conf)[s] <==> Owned(table', s) {
      assert slot == Some(s) ==> Owns(table', h, s);
      if Owned(table, s) {
        var i :| 0 <= i < |table| && Owns(table, i, s);
        assert Owns(table', i, s);
      }
      if Owned(table', s) {
        var i :| 0 <= i < |table'| && Owns(table', i, s);
        assert i != h ==> Owns(table, i, s);
      }
    }
    if slot.Some? {
      forall i | 0 <= i < |table| && table[i].Some? ensures table[i].value.slot != slot {
        assert !Owns(table, i, slot.value);
      }
    }
  }

  // ---- removing

  function Removed(g: Registry, h: nat): Registry
    requires h < |g.table| && g.table[h].Some?
    requires g.table[h].value.slot.Some? ==> g.table[h].value.slot.value < MAX_SLOTS
    requires g.numloaded > 0
  {
    Registry(
      g.table[h := None],
      g.numloaded - 1,
      if h == g.maxindex then (g.maxindex + WORD - 1) % WORD else g.maxindex,
      g.staticmax,
      if h < g.freehint && h >= g.staticmax then h else g.freehint,
      if g.table[h].value.slot.Some? then g.free[g.table[h].value.slot.value := true] else g.free,
      g.late)
  }

  lemma CanRemove(g: Registry, h: nat)
    requires Sound(g) && h < |g.table| && g.table[h].Some?
    ensures g.numloaded > 0 && (g.table[h].value.slot.Some? ==> g.table[h].value.slot.value < MAX_SLOTS)
  {
    LiveEmpty(g.table);
  }

  /** Removing a policy keeps the list sound unless the index of the last policy wraps below zero. */
  lemma RemovedSoundIff(g: Registry, h: nat)
    requires Sound(g) && h < |g.table| && g.table[h].Some?
    ensures g.numloaded > 0 && (g.table[h].value.slot.Some? ==> g.table[h].value.slot.value < MAX_SLOTS)
    ensures Sound(Removed(g, h)) <==> !(h == 0 && g.maxindex == 0)
  {
    CanRemove(g, h);
    if h == 0 && g.maxindex == 0 {
      assert Removed(g, h).maxindex == WORD - 1;
    } else {
      RemovedSound(g, h);
    }
  }

  lemma {:induction false} RemovedSound(g: Registry, h: nat)
    requires Sound(g) && h < |g.table| && g.table[h].Some? && g.numloaded > 0
    requires g.table[h].value.slot.Some? ==> g.table[h].value.slot.value < MAX_SLOTS
    requires !(h == 0 && g.maxindex == 0)
    ensures Sound(Removed(g, h))
  {
    LiveUpdate(g.table, h, None);
    RemovedSlots(g.table, g.free, h);
    RemovedIndex(g, h);
    RemovedNames(g.table, h);
    RemovedPlaces(g, h);
  }

  lemma {:induction false} RemovedPlaces(g: Registry, h: nat)
    requires Sound(g) && h < |g.table| && g.table[h].Some? && g.numloaded > 0
    requires g.table[h].value.slot.Some? ==> g.table[h].value.slot.value < MAX_SLOTS
    ensures var g' := Removed(g, h);
      && g'.staticmax <= g'.freehint <= |g'.table|
      && (forall i :: g'.staticmax <= i < g'.freehint ==> g'.table[i].Some?)
      && (forall i :: 0 <= i < |g'.table| && g'.table[i].Some? ==> g'.table[i].value.registered)
      && (!g'.late ==>
            g'.staticmax == g'.freehint && forall i :: g'.staticmax <= i < |g'.table| ==> g'.table[i] == None)
  {
  }

  /** A removal vacates a static place, or takes one of the dynamic policies away. */
  lemma RemovedCounts(g: Registry, h: nat)
    requires Sound(g) && h < |g.table| && g.table[h].Some? && g.numloaded > 0
    requires g.table[h].value.slot.Some? ==> g.table[h].value.slot.value < MAX_SLOTS
    ensures Holes(Removed(g, h)) == Holes(g) + (if h < g.staticmax then 1 else 0)
    ensures Dynamic(Removed(g, h)) == Dynamic(g) - (if h < g.staticmax then 0 else 1)
  {
    var n := g.staticmax;
    var a, b, table' := g.table[..n], g.table[n..], g.table[h := None];
    if h < n {
      assert table'[..n] == a[h := None] && table'[n..] == b;
      LiveUpdate(a, h, None);
    } else {
      assert table'[..n] == a && table'[n..] == b[h - n := None];
      LiveUpdate(b, h - n, None);
    }
  }

  /** Removing a policy keeps a table in order exactly if, besides, its handle is not a static one. */
  lemma RemovedOkIff(g: Registry, h: nat)
    requires Ok(g) && h < |g.table| && g.table[h].Some?
    ensures g.numloaded > 0 && (g.table[h].value.slot.Some? ==> g.table[h].value.slot.value < MAX_SLOTS)
    ensures Ok(Removed(g, h)) <==> h >= g.staticmax && !(h == 0 && g.maxindex == 0)
  {
    RemovedSoundIff(g, h);
    if h < g.staticmax {
      assert Removed(g, h).table[h] == None;
    }
  }

  lemma RemovedNames(table: Table, h: nat)
    requires h < |table| && NamesUnique(table)
    ensures NamesUnique(table[h := None])
  {
  }

  lemma RemovedIndex(g: Registry, h: nat)
    requires Sound(g) && h < |g.table| && !(h == 0 && g.maxindex == 0)
    ensures var top := if h == g.maxindex then (g.maxindex + WORD - 1) % WORD else g.maxindex;
            && top < |g.table|
            && forall i :: 0 <= i < |g.table| && i != h && g.table[i].Some? ==> i <= top
  {
    if h == g.maxindex {
      assert (g.maxindex + WORD - 1) % WORD == g.maxindex - 1;
    }
  }

  lemma {:induction false} RemovedSlots(table: Table, free: Slots, h: nat)
    requires h < |table| && table[h].Some? && SlotsOk(table, free)
    ensures SlotsOk(table[h := None],
                    if table[h].value.slot.Some? then free[table[h].value.slot.value := true] else free)
  {
    var slot := table[h].value.slot;
    var table', free' := table[h := None], if slot.Some? then free[slot.value := true] else free;
    forall s | 0 <= s < MAX_SLOTS ensures !free'[s] <==> Owned(table', s) {
      if Owned(table, s) && slot != Some(s) {
        var i :| 0 <= i < |table| && Owns(table, i, s);
        assert Owns(table', i, s);
      }
      if Owned(table', s) {
        var i :| 0 <= i < |table'| && Owns(table', i, s);
        assert Owns(table, i, s);
        assert slot == Some(s) ==> i == h;
      }
    }
  }

  // ---- initialisation

  /** One chunk, with nobody in it. */
  predicate Initial(g: Registry) {
    && |g.table| == CHUNK && (forall i :: 0 <= i < |g.table| ==> g.table[i] == None)
    && g.numloaded == 0 && g.maxindex == 0 && g.staticmax == 0 && g.freehint == 0
    && (forall s :: 0 <= s < MAX_SLOTS ==> g.free[s]) && !g.late
  }

  lemma InitialOk(g: Registry)
    requires Initial(g)
    ensures Ok(g) && Holes(g) == 0
  {
    LiveEmpty(g.table);
    Counted(g);
  }
}
