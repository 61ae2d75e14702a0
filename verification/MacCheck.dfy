/** The composition loops: every loaded policy is asked once, in handle order, and the answers become one. */
module MacCheck {
  import opened Base
  import opened PolicyTable
  import opened PolicyList
  import opened MacError

  /** The handles in use below n, in order. */
  function Handles(table: Table, n: nat): seq<nat>
    requires n <= |table|
  {
    if n == 0 then []
    else Handles(table, n - 1) + (if table[n - 1].Some? then [n - 1] else [])
  }

  /** Each handle in use below n stands in the list, and stands there once. */
  lemma {:induction false} HandlesAre(table: Table, n: nat)
    requires n <= |table|
    ensures forall h: nat :: h in Handles(table, n) <==> h < n && table[h].Some?
    ensures forall u, v :: 0 <= u < v < |Handles(table, n)| ==> Handles(table, n)[u] < Handles(table, n)[v]
  {
    if n > 0 {
      HandlesAre(table, n - 1);
      var before, last := Handles(table, n - 1), if table[n - 1].Some? then [n - 1] else [];
      assert Handles(table, n) == before + last;
      forall h: nat ensures h in Handles(table, n) <==> h < n && table[h].Some? {
        assert h in before + last <==> h in before || h in last;
      }
      forall u, v | 0 <= u < v < |before + last| ensures (before + last)[u] < (before + last)[v] {
        if v == |before| { assert before[u] in before; }
      }
    }
  }

  /** The verdicts of the policies below n that implement the check, in handle order. */
  function Verdicts(table: Table, n: nat, op: Entry -> Option<int>): seq<int>
    requires n <= |table|
  {
    if n == 0 then []
    else
      Verdicts(table, n - 1, op)
      + (if table[n - 1].Some? && op(table[n - 1].value).Some? then [op(table[n - 1].value).value] else [])
  }

  lemma {:induction false} NothingAbove(table: Table, n: nat, m: nat, op: Entry -> Option<int>)
    requires n <= m <= |table|
    requires forall i :: n <= i < |table| ==> table[i] == None
    ensures Handles(table, m) == Handles(table, n) && Verdicts(table, m, op) == Verdicts(table, n, op)
    decreases m - n
  {
    if n < m { NothingAbove(table, n, m - 1, op); }
  }

  /** Where the passes end: behind the static part, or behind maxindex when there seem to be dynamic policies. */
  function PassEnd(g: Registry): nat {
    if g.numloaded > g.staticmax && g.maxindex + 1 > g.staticmax then g.maxindex + 1 else g.staticmax
  }

  /** The passes stay inside the table. */
  predicate Bounded(g: Registry) {
    PassEnd(g) <= |g.table|
  }

  /** The passes come across every policy in the table. */
  predicate MissesNobody(g: Registry)
    requires Bounded(g)
  {
    Handles(g.table, PassEnd(g)) == Handles(g.table, |g.table|)
  }

  lemma MissesNobodyIff(g: Registry)
    requires Bounded(g)
    ensures MissesNobody(g) <==> forall i :: PassEnd(g) <= i < |g.table| ==> g.table[i] == None
  {
    HandlesAre(g.table, PassEnd(g));
    HandlesAre(g.table, |g.table|);
    if forall i :: PassEnd(g) <= i < |g.table| ==> g.table[i] == None {
      NothingAbove(g.table, PassEnd(g), |g.table|, _ => None);
    } else {
      var i: nat :| PassEnd(g) <= i < |g.table| && g.table[i] != None;
      assert i in Handles(g.table, |g.table|) && i !in Handles(g.table, PassEnd(g));
    }
  }

  /** On a sound list the passes miss somebody exactly if there are dynamic policies, and no more of them than static
      places have been vacated: numloaded is then not above staticmax, and no dynamic policy is asked. */
  lemma CoverIff(g: Registry)
    requires Sound(g)
    ensures Bounded(g)
    ensures MissesNobody(g) <==> Dynamic(g) == 0 || Dynamic(g) > Holes(g)
    ensures !MissesNobody(g) ==> PassEnd(g) == g.staticmax
  {
    Counted(g);
    MissesNobodyIff(g);
  }

  /** On a table in order the static pass alone, or with the dynamic pass when it is made, misses nobody. */
  lemma PassesCoverAll(g: Registry, op: Entry -> Option<int>)
    requires Ok(g)
    ensures Bounded(g) && MissesNobody(g)
    ensures Verdicts(g.table, PassEnd(g), op) == Verdicts(g.table, |g.table|, op)
  {
    CoverIff(g);
    Counted(g);
    CoverAllIfMet(g, op);
  }

  lemma CoverAllIfMet(g: Registry, op: Entry -> Option<int>)
    requires Bounded(g)
    ensures MissesNobody(g) ==> Verdicts(g.table, PassEnd(g), op) == Verdicts(g.table, |g.table|, op)
  {
    MissesNobodyIff(g);
    if MissesNobody(g) {
      NothingAbove(g.table, PassEnd(g), |g.table|, op);
    }
  }

  /** After the removal of any policy from any sound list, the wrap of maxindex included: d dynamic policies are left,
      and n static places are vacant. */
  lemma RemovalMissesIff(g: Registry, h: nat)
    requires Sound(g) && h < |g.table| && g.table[h].Some?
    ensures g.numloaded > 0 && (g.table[h].value.slot.Some? ==> g.table[h].value.slot.value < MAX_SLOTS)
    ensures Bounded(Removed(g, h))
    ensures var d := if h < g.staticmax then Dynamic(g) else Dynamic(g) - 1;
      var n := if h < g.staticmax then Holes(g) + 1 else Holes(g);
      MissesNobody(Removed(g, h)) <==> d == 0 || d > n
  {
    CanRemove(g, h);
    RemovedCounts(g, h);
    if h == 0 && g.maxindex == 0 {
      RemovalOfOnly(g);
    } else {
      RemovedSound(g, h);
      CoverIff(Removed(g, h));
    }
  }

  /** The only policy, at handle 0. */
  lemma RemovalOfOnly(g: Registry)
    requires Sound(g) && g.maxindex == 0 && g.table[0].Some? && g.numloaded > 0
    requires g.table[0].value.slot.Some? ==> g.table[0].value.slot.value < MAX_SLOTS
    ensures Bounded(Removed(g, 0)) && MissesNobody(Removed(g, 0)) && Dynamic(Removed(g, 0)) == 0
  {
    var g' := Removed(g, 0);
    assert forall i :: 0 <= i < |g'.table| ==> g'.table[i] == None;
    LiveUpdate(g.table, 0, None);
    LiveEmpty(g'.table);
    NoneAbove(g'.table, g'.staticmax);
    MissesNobodyIff(g');
  }

  /** The first removal that brings a table out of order hides a policy exactly if it takes a static one away while
      there is exactly one dynamic policy. */
  lemma FirstRemovalMissesIff(g: Registry, h: nat)
    requires Ok(g) && h < |g.table| && g.table[h].Some?
    ensures g.numloaded > 0 && (g.table[h].value.slot.Some? ==> g.table[h].value.slot.value < MAX_SLOTS)
    ensures Bounded(Removed(g, h))
    ensures MissesNobody(Removed(g, h)) <==> !(h < g.staticmax && g.numloaded == g.staticmax + 1)
  {
    RemovalMissesIff(g, h);
    Counted(g);
  }

  /** One policy is asked, if there is one at i and it implements the check. */
  method Ask(r: PolicyRegistry, i: nat, op: Entry -> Option<int>, error0: int, asked0: seq<nat>)
    returns (error: int, asked: seq<nat>)
    requires i < r.entries.Length
    requires error0 == Compose(Verdicts(r.entries[..], i, op)) && asked0 == Handles(r.entries[..], i)
    ensures error == Compose(Verdicts(r.entries[..], i + 1, op)) && asked == Handles(r.entries[..], i + 1)
  {
    ghost var table := r.entries[..];
    error, asked := error0, asked0;
    assert table[i] == r.entries[i];
    if r.entries[i].Some? {
      asked := asked + [i];
      var answer := op(r.entries[i].value);
      if answer.Some? {
        error := ErrorSelect(answer.value, error);
        ghost var vs := Verdicts(table, i + 1, op);
        assert vs[..|vs| - 1] == Verdicts(table, i, op) && vs[|vs| - 1] == answer.value;
      } else {
        assert Verdicts(table, i + 1, op) == Verdicts(table, i, op);
      }
    } else {
      assert Verdicts(table, i + 1, op) == Verdicts(table, i, op);
    }
  }

  /** One pass of the loop, from handle i up to but not including n. */
  method AskRange(r: PolicyRegistry, i: nat, n: nat, op: Entry -> Option<int>, error0: int, asked0: seq<nat>)
    returns (error: int, asked: seq<nat>)
    requires i <= n <= r.entries.Length
    requires error0 == Compose(Verdicts(r.entries[..], i, op)) && asked0 == Handles(r.entries[..], i)
    ensures error == Compose(Verdicts(r.entries[..], n, op)) && asked == Handles(r.entries[..], n)
  {
    error, asked := error0, asked0;
    var k := i;
    while k < n
      invariant i <= k <= n
      invariant error == Compose(Verdicts(r.entries[..], k, op)) && asked == Handles(r.entries[..], k)
    {
      error, asked := Ask(r, k, op, error, asked);
      k := k + 1;
    }
  }

  /** MAC_CHECK: a static pass, and a dynamic pass that goes on from the same index when there seems to be need for
      it. */
  method Check(r: PolicyRegistry, op: Entry -> Option<int>) returns (error: int, asked: seq<nat>)
    requires Bounded(r.View())
    ensures asked == Handles(r.entries[..], PassEnd(r.View()))
    ensures error == Compose(Verdicts(r.entries[..], PassEnd(r.View()), op))
    ensures MissesNobody(r.View()) ==> asked == Handles(r.entries[..], r.entries.Length)
    ensures MissesNobody(r.View()) ==> error == Compose(Verdicts(r.entries[..], r.entries.Length, op))
  {
    CoverAllIfMet(r.View(), op);
    error, asked := AskRange(r, 0, r.staticmax, op, 0, []);
    if r.numloaded > r.staticmax && r.staticmax <= r.maxindex {
      error, asked := AskRange(r, r.staticmax, r.maxindex + 1, op, error, asked);
    }
  }

  /** Every loaded policy is consulted exactly once, in handle order. */
  lemma AskedAreLoaded(g: Registry)
    ensures forall h: nat :: h in Handles(g.table, |g.table|) <==> h in Loaded(g)
    ensures forall u, v :: 0 <= u < v < |Handles(g.table, |g.table|)|
                      ==> Handles(g.table, |g.table|)[u] != Handles(g.table, |g.table|)[v]
  {
    HandlesAre(g.table, |g.table|);
  }

  /** A check is granted exactly when every policy that has an opinion grants it; otherwise its error is that of a
      loaded policy, and no loaded policy's error has a higher precedence. */
  lemma CheckGranted(g: Registry, op: Entry -> Option<int>)
    ensures var error := Compose(Verdicts(g.table, |g.table|, op));
      && (error == 0 <==> forall h :: h in Loaded(g) && op(Loaded(g)[h]).Some? ==> op(Loaded(g)[h]).value == 0)
      && (error != 0 ==> exists h :: h in Loaded(g) && op(Loaded(g)[h]) == Some(error))
      && (forall h :: h in Loaded(g) && op(Loaded(g)[h]).Some? ==> Rank(op(Loaded(g)[h]).value) <= Rank(error))
  {
    var vs := Verdicts(g.table, |g.table|, op);
    ComposeIsHighest(vs);
    VerdictsOfLoaded(g, op);
  }

  lemma VerdictsOfLoaded(g: Registry, op: Entry -> Option<int>)
    ensures forall v ::
      v in Verdicts(g.table, |g.table|, op) <==> exists h :: h in Loaded(g) && op(Loaded(g)[h]) == Some(v)
    ensures forall h :: h in Loaded(g) && op(Loaded(g)[h]).Some? ==>
      op(Loaded(g)[h]).value in Verdicts(g.table, |g.table|, op)
  {
    VerdictsAre(g.table, |g.table|, op);
    forall v
      ensures v in Verdicts(g.table, |g.table|, op) <==> exists h :: h in Loaded(g) && op(Loaded(g)[h]) == Some(v)
    {
      if h: nat :| 0 <= h < |g.table| && Gives(g.table, h, op, v) {
        assert h in Loaded(g);
      }
      if h :| h in Loaded(g) && op(Loaded(g)[h]) == Some(v) {
        assert Gives(g.table, h, op, v);
      }
    }
  }

  predicate Gives(table: Table, h: nat, op: Entry -> Option<int>, v: int)
    requires h < |table|
  {
    table[h].Some? && op(table[h].value) == Some(v)
  }

  lemma {:induction false} VerdictsAre(table: Table, n: nat, op: Entry -> Option<int>)
    requires n <= |table|
    ensures forall v :: v in Verdicts(table, n, op) <==> exists h :: 0 <= h < n && Gives(table, h, op, v)
  {
    if n > 0 {
      VerdictsAre(table, n - 1, op);
      forall v ensures v in Verdicts(table, n, op) <==> exists h :: 0 <= h < n && Gives(table, h, op, v) {
        if v in Verdicts(table, n, op) && v !in Verdicts(table, n - 1, op) {
          assert Gives(table, n - 1, op, v);
        }
      }
    }
  }

  // ---- MAC_BOOLEAN

  /** C's || and &&: the policy is not called when the result is already fixed. */
  function Join(or: bool, result: bool, answer: bool): bool {
    if or then result || answer else result && answer
  }

  /** The verdicts of a boolean operation, joined. */
  predicate Joined(table: Table, n: nat, op: Entry -> Option<bool>, or: bool, start: bool)
    requires n <= |table|
  {
    if or then start || exists h :: 0 <= h < n && Says(table, h, op, true)
    else start && forall h :: 0 <= h < n ==> !Says(table, h, op, false)
  }

  predicate Says(table: Table, h: nat, op: Entry -> Option<bool>, answer: bool)
    requires h < |table|
  {
    table[h].Some? && op(table[h].value) == Some(answer)
  }

  method AskBoolean(r: PolicyRegistry, i: nat, op: Entry -> Option<bool>, or: bool, start: bool, result0: bool)
    returns (result: bool)
    requires i < r.entries.Length && result0 == Joined(r.entries[..], i, op, or, start)
    ensures result == Joined(r.entries[..], i + 1, op, or, start)
  {
    ghost var table := r.entries[..];
    result := result0;
    assert table[i] == r.entries[i];
    if r.entries[i].Some? {
      if result != or {
        var answer := op(r.entries[i].value);
        if answer.Some? {
          result := Join(or, result, answer.value);
          assert Says(table, i, op, answer.value);
        }
      }
    }
  }

  /** MAC_BOOLEAN with || or &&, for every initial result. */
  method Boolean(r: PolicyRegistry, op: Entry -> Option<bool>, or: bool, start: bool) returns (result: bool)
    requires Bounded(r.View())
    ensures result == Joined(r.entries[..], PassEnd(r.View()), op, or, start)
    ensures MissesNobody(r.View()) ==> result == Joined(r.entries[..], r.entries.Length, op, or, start)
  {
    MissesNobodyIff(r.View());
    result := start;
    var i := 0;
    while i < r.staticmax
      invariant 0 <= i <= r.staticmax <= r.entries.Length
      invariant result == Joined(r.entries[..], i, op, or, start)
    {
      result := AskBoolean(r, i, op, or, start, result);
      i := i + 1;
    }
    if r.numloaded > r.staticmax {
      while i <= r.maxindex
        invariant r.staticmax <= i && (i <= r.maxindex + 1 || i == r.staticmax) && i <= r.entries.Length
        invariant result == Joined(r.entries[..], i, op, or, start)
      {
        result := AskBoolean(r, i, op, or, start, result);
        i := i + 1;
      }
    }
    if MissesNobody(r.View()) {
      JoinedRest(r.View(), i, op, or, start);
    }
  }

  lemma JoinedRest(g: Registry, n: nat, op: Entry -> Option<bool>, or: bool, start: bool)
    requires n <= |g.table| && forall i :: n <= i < |g.table| ==> g.table[i] == None
    ensures Joined(g.table, n, op, or, start) == Joined(g.table, |g.table|, op, or, start)
  {
    forall h | 0 <= h < |g.table| && Says(g.table, h, op, or)
      ensures h < n
    {
    }
  }

  // ---- MAC_PERFORM

  /** The handles below n whose policies implement the operation, in order. */
  function Implementing(table: Table, n: nat, has: Entry -> bool): seq<nat>
    requires n <= |table|
  {
    if n == 0 then []
    else Implementing(table, n - 1, has) + (if table[n - 1].Some? && has(table[n - 1].value) then [n - 1] else [])
  }

  /** These are the handles in use below n whose policies implement the operation, each once, in order. */
  lemma {:induction false} ImplementingAre(table: Table, n: nat, has: Entry -> bool)
    requires n <= |table|
    ensures forall h: nat :: h in Implementing(table, n, has) <==> h < n && table[h].Some? && has(table[h].value)
    ensures Increasing(Implementing(table, n, has))
  {
    if n > 0 {
      ImplementingAre(table, n - 1, has);
      var before := Implementing(table, n - 1, has);
      var last := if table[n - 1].Some? && has(table[n - 1].value) then [n - 1] else [];
      assert Implementing(table, n, has) == before + last;
      forall h: nat ensures h in Implementing(table, n, has) <==> h < n && table[h].Some? && has(table[h].value) {
        assert h in before + last <==> h in before || h in last;
      }
      forall u, v | 0 <= u < v < |before + last| ensures (before + last)[u] < (before + last)[v] {
        if v == |before| { assert before[u] in before; }
      }
    }
  }

  predicate Increasing(handles: seq<nat>) {
    forall u, v :: 0 <= u < v < |handles| ==> handles[u] < handles[v]
  }

  /** The verdicts composed are those of the policies that implement the check, one each, in handle order. */
  lemma {:induction false} VerdictsInOrder(table: Table, n: nat, op: Entry -> Option<int>)
    requires n <= |table|
    ensures var asked := Implementing(table, n, (e: Entry) => op(e).Some?);
      && |Verdicts(table, n, op)| == |asked|
      && forall k :: 0 <= k < |asked| ==>
           asked[k] < n && table[asked[k]].Some? && op(table[asked[k]].value) == Some(Verdicts(table, n, op)[k])
  {
    if n > 0 {
      VerdictsInOrder(table, n - 1, op);
    }
  }

  /** `performed` lists loaded policies that have the operation, each once, in order; all of them, if nobody is
      missed. */
  ghost predicate RunsOnce(g: Registry, has: Entry -> bool, performed: seq<nat>)
    requires Bounded(g)
  {
    && Increasing(performed)
    && (forall h: nat :: h in performed ==> h in Loaded(g) && has(Loaded(g)[h]))
    && (MissesNobody(g) ==> forall h: nat :: h in Loaded(g) && has(Loaded(g)[h]) ==> h in performed)
  }

  lemma PerformedAre(g: Registry, has: Entry -> bool)
    requires Bounded(g)
    ensures RunsOnce(g, has, Implementing(g.table, PassEnd(g), has))
    ensures MissesNobody(g) ==> Implementing(g.table, PassEnd(g), has) == Implementing(g.table, |g.table|, has)
  {
    MissesNobodyIff(g);
    ImplementingAre(g.table, PassEnd(g), has);
    if MissesNobody(g) {
      ImplementingRest(g.table, PassEnd(g), |g.table|, has);
      ImplementingAre(g.table, |g.table|, has);
    }
  }

  lemma {:induction false} ImplementingRest(table: Table, n: nat, m: nat, has: Entry -> bool)
    requires n <= m <= |table| && forall i :: n <= i < |table| ==> table[i] == None
    ensures Implementing(table, m, has) == Implementing(table, n, has)
    decreases m - n
  {
    if n < m { ImplementingRest(table, n, m - 1, has); }
  }

  method PerformRange(r: PolicyRegistry, i: nat, n: nat, has: Entry -> bool, performed0: seq<nat>)
    returns (performed: seq<nat>)
    requires i <= n <= r.entries.Length && performed0 == Implementing(r.entries[..], i, has)
    ensures performed == Implementing(r.entries[..], n, has)
  {
    performed := performed0;
    var k := i;
    while k < n
      invariant i <= k <= n && performed == Implementing(r.entries[..], k, has)
    {
      assert r.entries[..][k] == r.entries[k];
      if r.entries[k].Some? && has(r.entries[k].value) {
        performed := performed + [k];
      }
      k := k + 1;
    }
  }

  /** MAC_PERFORM: the operation runs once for every policy met that implements it, in handle order. */
  method Perform(r: PolicyRegistry, has: Entry -> bool) returns (performed: seq<nat>)
    requires Bounded(r.View())
    ensures performed == Implementing(r.entries[..], PassEnd(r.View()), has)
    ensures MissesNobody(r.View()) ==> performed == Implementing(r.entries[..], r.entries.Length, has)
    ensures RunsOnce(r.View(), has, performed)
  {
    PerformedAre(r.View(), has);
    performed := PerformRange(r, 0, r.staticmax, has, []);
    if r.numloaded > r.staticmax && r.staticmax <= r.maxindex {
      performed := PerformRange(r, r.staticmax, r.maxindex + 1, has, performed);
    }
  }
}
