/** Looking sections and segments up in a kernel Mach-O header, which is in host byte order. */
module MachHeader {
  import opened Base
  import opened MachO

  /** A header whose load commands the kernel can walk; wide says which kind of header it was built for. */
  predicate KernelHeader(img: Image, wide: bool) {
    HeaderSize(wide) <= |img| && CommandsOk(img, HeaderSize(wide), Word(img, NCMDS, false), false)
  }

  function KernelSections(img: Image, wide: bool): seq<Section>
    requires KernelHeader(img, wide)
  {
    SectionsFrom(img, HeaderSize(wide), Word(img, NCMDS, false), false)
  }

  /** The segment command of a section ends before the section header starts. */
  predicate Announced(img: Image, s: Section) {
    s.segment + SegmentSize(s.wide) <= s.at && s.at + s.Size() <= |img|
  }

  lemma {:induction false} ConsecutiveAt(segment: nat, s: nat, k: nat, wide: bool, i: nat)
    requires i < k
    ensures |Consecutive(segment, s, k, wide)| == k
    ensures Consecutive(segment, s, k, wide)[i] == Section(segment, s + SectionsSize(i, wide), wide)
    decreases k
  {
    var next := s + SectionSize(wide);
    if i > 0 {
      ConsecutiveAt(segment, next, k - 1, wide, i - 1);
    } else if k > 1 {
      ConsecutiveAt(segment, next, k - 1, wide, 0);
    }
  }

  lemma CommandAnnounced(img: Image, o: nat, swap: bool, s: Section)
    requires CommandOk(img, o, swap) && s in CommandSections(img, o, swap)
    ensures Announced(img, s) && s.segment == o && KindAt(img, o, swap) == Some(s.wide)
  {
    var kind := KindAt(img, o, swap).value;
    var start, k := o + SegmentSize(kind), Word(img, o + CountOffset(kind), swap);
    var secs := Consecutive(o, start, k, kind);
    var i :| 0 <= i < |secs| && secs[i] == s;
    ConsecutiveOrdered(o, start, k, kind);
    if k > 0 {
      ConsecutiveAt(o, start, k, kind, 0);
      ConsecutiveAt(o, start, k, kind, i);
    }
  }

  lemma {:induction false} SectionsAnnounced(img: Image, o: nat, n: nat, swap: bool, s: Section)
    requires CommandsOk(img, o, n, swap) && s in SectionsFrom(img, o, n, swap)
    ensures Announced(img, s)
    decreases n
  {
    if n > 0 {
      if s in CommandSections(img, o, swap) {
        CommandAnnounced(img, o, swap, s);
      } else {
        SectionsAnnounced(img, NextCommand(img, o, swap), n - 1, swap, s);
      }
    }
  }

  /** The segment may be searched: any one in an object file, which has a single unnamed segment. */
  predicate Searched(img: Image, segment: nat, segname: seq<Byte>)
    requires NCMDS <= |img| && segment + 24 <= |img|
  {
    Carries(img, segment + SEGMENT_NAME, segname) || Word(img, FILETYPE, false) == MH_OBJECT
  }

  /** The section header carries both names. */
  predicate Named(img: Image, s: Section, segname: seq<Byte>, sectname: seq<Byte>)
    requires s.at + s.Size() <= |img|
  {
    Carries(img, s.at, sectname) && Carries(img, s.Field(), segname)
  }

  /** The section is one that a lookup by segment and section name is after. */
  predicate Wanted(img: Image, s: Section, wide: bool, segname: seq<Byte>, sectname: seq<Byte>) {
    && NCMDS <= |img| && Announced(img, s)
    && s.wide == wide && Searched(img, s.segment, segname) && Named(img, s, segname, sectname)
  }

  /** The first section in the list that is in the given set. */
  function First(secs: seq<Section>, chosen: set<Section>): Option<nat> {
    if secs == [] then None
    else if secs[0] in chosen then Some(secs[0].at)
    else First(secs[1..], chosen)
  }

  lemma {:induction false} FirstMeans(secs: seq<Section>, chosen: set<Section>)
    ensures First(secs, chosen).None? <==> forall s :: s in secs ==> s !in chosen
    ensures First(secs, chosen).Some? ==> exists i ::
      && 0 <= i < |secs| && secs[i].at == First(secs, chosen).value && secs[i] in chosen
      && forall j :: 0 <= j < i ==> secs[j] !in chosen
  {
    if secs != [] && secs[0] !in chosen {
      FirstMeans(secs[1..], chosen);
      if First(secs, chosen).Some? {
        var i :| 0 <= i < |secs| - 1 && secs[1..][i].at == First(secs, chosen).value && secs[1..][i] in chosen
          && forall j :: 0 <= j < i ==> secs[1..][j] !in chosen;
        assert secs[i + 1] == secs[1..][i];
        forall j | 0 <= j < i + 1
          ensures secs[j] !in chosen
        {
          assert j > 0 ==> secs[j] == secs[1..][j - 1];
        }
      }
    }
  }

  lemma {:induction false} FirstSame(secs: seq<Section>, a: set<Section>, b: set<Section>)
    requires forall s :: s in secs ==> (s in a <==> s in b)
    ensures First(secs, a) == First(secs, b)
  {
    if secs != [] {
      FirstSame(secs[1..], a, b);
    }
  }

  function WantedAmong(img: Image, secs: seq<Section>, wide: bool, segname: seq<Byte>,
      sectname: seq<Byte>): set<Section>
  {
    set s | s in secs && Wanted(img, s, wide, segname, sectname)
  }

  lemma {:induction false} FirstOfAppend(here: seq<Section>, later: seq<Section>, chosen: set<Section>)
    ensures First(here + later, chosen)
         == if First(here, chosen).Some? then First(here, chosen) else First(later, chosen)
  {
    if here == [] {
      assert here + later == later;
    } else {
      assert (here + later)[1..] == here[1..] + later;
      FirstOfAppend(here[1..], later, chosen);
    }
  }

  /** Among these sections, the chosen ones are those that carry both names. */
  predicate ChosenByName(img: Image, secs: seq<Section>, chosen: set<Section>, segname: seq<Byte>,
      sectname: seq<Byte>)
  {
    forall s :: s in secs ==> s.at + s.Size() <= |img| && (s in chosen <==> Named(img, s, segname, sectname))
  }

  /** What a search of one segment is after: k sections from sp on, of which the first chosen one is `found`. */
  predicate Ahead(img: Image, segment: nat, sp: nat, k: nat, wide: bool, chosen: set<Section>,
                  segname: seq<Byte>, sectname: seq<Byte>, found: Option<nat>)
  {
    && ChosenByName(img, Consecutive(segment, sp, k, wide), chosen, segname, sectname)
    && First(Consecutive(segment, sp, k, wide), chosen) == found
  }

  lemma AheadStep(img: Image, segment: nat, sp: nat, k: nat, wide: bool, chosen: set<Section>,
                  segname: seq<Byte>, sectname: seq<Byte>, found: Option<nat>)
    requires k > 0 && Ahead(img, segment, sp, k, wide, chosen, segname, sectname, found)
    ensures sp + SectionSize(wide) <= |img|
    ensures if Carries(img, sp, sectname) && Carries(img, sp + 16, segname) then found == Some(sp)
            else Ahead(img, segment, sp + SectionSize(wide), k - 1, wide, chosen, segname, sectname, found)
  {
    var s, rest := Section(segment, sp, wide), Consecutive(segment, sp + SectionSize(wide), k - 1, wide);
    assert Consecutive(segment, sp, k, wide) == [s] + rest;
    assert s in Consecutive(segment, sp, k, wide);
    assert forall t :: t in rest ==> t in Consecutive(segment, sp, k, wide);
    assert Consecutive(segment, sp, k, wide)[1..] == rest;
  }

  lemma AheadEnds(img: Image, segment: nat, sp: nat, wide: bool, chosen: set<Section>,
                  segname: seq<Byte>, sectname: seq<Byte>, found: Option<nat>)
    requires Ahead(img, segment, sp, 0, wide, chosen, segname, sectname, found)
    ensures found == None
  {
  }

  /** One turn of the inner loop: the section at sp is the one, or the search goes on behind it. */
  method SearchSection(img: Image, sp: nat, wide: bool, segname: seq<Byte>, sectname: seq<Byte>,
                       ghost segment: nat, ghost left: nat, ghost chosen: set<Section>, ghost found: Option<nat>)
    returns (r: Option<nat>, next: nat)
    requires left > 0 && Ahead(img, segment, sp, left, wide, chosen, segname, sectname, found)
    ensures if r.Some? then r == found
            else Ahead(img, segment, next, left - 1, wide, chosen, segname, sectname, found)
  {
    AheadStep(img, segment, sp, left, wide, chosen, segname, sectname, found);
    next := sp + SectionSize(wide);
    r := if Carries(img, sp, sectname) && Carries(img, sp + 16, segname) then Some(sp) else None;
  }

  /** The inner loop of the lookup: the first of the sections of one segment that carries both names. */
  method SearchSections(img: Image, sects: nat, nsects: nat, wide: bool, segname: seq<Byte>, sectname: seq<Byte>,
                        ghost segment: nat, ghost chosen: set<Section>)
    returns (r: Option<nat>)
    requires ChosenByName(img, Consecutive(segment, sects, nsects, wide), chosen, segname, sectname)
    ensures r == First(Consecutive(segment, sects, nsects, wide), chosen)
  {
    var sp: nat, j: nat := sects, 0;
    ghost var found, left: nat := First(Consecutive(segment, sects, nsects, wide), chosen), nsects;
    while j < nsects
      invariant j <= nsects && left == nsects - j
      invariant Ahead(img, segment, sp, left, wide, chosen, segname, sectname, found)
    {
      r, sp := SearchSection(img, sp, wide, segname, sectname, segment, left, chosen, found);
      if r.Some? {
        return;
      }
      j, left := j + 1, left - 1;
    }
    AheadEnds(img, segment, sp, wide, chosen, segname, sectname, found);
    r := None;
  }

  /** The sections of the command at o that are wanted: none unless the segment is searched, then those named. */
  lemma WantedInCommand(img: Image, o: nat, wide: bool, segname: seq<Byte>, sectname: seq<Byte>, s: Section)
    requires NCMDS <= |img| && CommandOk(img, o, false) && s in CommandSections(img, o, false)
    ensures Announced(img, s)
    ensures Wanted(img, s, wide, segname, sectname) <==>
      KindAt(img, o, false) == Some(wide) && Searched(img, o, segname) && Named(img, s, segname, sectname)
  {
    CommandAnnounced(img, o, false, s);
  }

  /** Among these sections, the chosen ones are those wanted. */
  predicate Chooses(img: Image, secs: seq<Section>, chosen: set<Section>, wide: bool, segname: seq<Byte>,
      sectname: seq<Byte>)
  {
    forall s :: s in secs ==> (s in chosen <==> Wanted(img, s, wide, segname, sectname))
  }

  /** One load command of the lookup. */
  method SearchCommand(img: Image, sgp: nat, wide: bool, segname: seq<Byte>, sectname: seq<Byte>,
      ghost chosen: set<Section>)
    returns (r: Option<nat>)
    requires NCMDS <= |img| && CommandOk(img, sgp, false)
    requires Chooses(img, CommandSections(img, sgp, false), chosen, wide, segname, sectname)
    ensures r == First(CommandSections(img, sgp, false), chosen)
  {
    ghost var here := CommandSections(img, sgp, false);
    forall s | s in here
      ensures Announced(img, s)
      ensures s in chosen <==>
        KindAt(img, sgp, false) == Some(wide) && Searched(img, sgp, segname) && Named(img, s, segname, sectname)
    {
      WantedInCommand(img, sgp, wide, segname, sectname, s);
    }
    if KindAt(img, sgp, false) == Some(wide) && Searched(img, sgp, segname) {
      var sects, nsects := sgp + SegmentSize(wide), Word(img, sgp + CountOffset(wide), false);
      r := SearchSections(img, sects, nsects, wide, segname, sectname, sgp, chosen);
    } else {
      FirstMeans(here, chosen);
      r := None;
    }
  }

  /** What is still to be found is the first chosen section of the n commands from o on. */
  predicate Looking(img: Image, secs: seq<Section>, chosen: set<Section>, o: nat, n: nat) {
    && CommandsOk(img, o, n, false)
    && First(secs, chosen) == First(SectionsFrom(img, o, n, false), chosen)
    && (forall s :: s in SectionsFrom(img, o, n, false) ==> s in secs)
  }

  lemma LookingHere(img: Image, secs: seq<Section>, chosen: set<Section>, o: nat, n: nat)
    requires Looking(img, secs, chosen, o, n) && n > 0
    ensures CommandOk(img, o, false) && forall s :: s in CommandSections(img, o, false) ==> s in secs
    ensures var r := First(CommandSections(img, o, false), chosen); r.Some? ==> First(secs, chosen) == r
  {
    FirstOfAppend(CommandSections(img, o, false), SectionsFrom(img, NextCommand(img, o, false), n - 1, false), chosen);
  }

  /** After one command: found, or still looking. */
  predicate Searching(img: Image, secs: seq<Section>, chosen: set<Section>, next: nat, m: nat, r: Option<nat>) {
    if r.Some? then r == First(secs, chosen) else Looking(img, secs, chosen, next, m)
  }

  lemma LookingStep(img: Image, secs: seq<Section>, chosen: set<Section>, o: nat, n: nat, next: nat, r: Option<nat>)
    requires n > 0 && Looking(img, secs, chosen, o, n)
    requires CommandOk(img, o, false) && next == NextCommand(img, o, false)
    requires r == First(CommandSections(img, o, false), chosen)
    ensures Searching(img, secs, chosen, next, n - 1, r)
  {
    if r.Some? {
      LookingHere(img, secs, chosen, o, n);
    } else {
      LookingOn(img, secs, chosen, o, n, next, n - 1);
    }
  }

  lemma LookingOn(img: Image, secs: seq<Section>, chosen: set<Section>, o: nat, n: nat, next: nat, m: nat)
    requires CommandOk(img, o, false) && next == NextCommand(img, o, false) && n == m + 1
    requires First(CommandSections(img, o, false), chosen) == None
    requires Looking(img, secs, chosen, o, n)
    ensures Looking(img, secs, chosen, next, m)
  {
    assert CommandsOk(img, next, m, false);
    var here, later := CommandSections(img, o, false), SectionsFrom(img, next, m, false);
    assert SectionsFrom(img, o, n, false) == here + later;
    FirstOfAppend(here, later, chosen);
  }

  lemma LookingEnds(img: Image, secs: seq<Section>, chosen: set<Section>, o: nat)
    requires Looking(img, secs, chosen, o, 0)
    ensures First(secs, chosen) == None
  {
  }

  lemma ChoosesSome(img: Image, secs: seq<Section>, some: seq<Section>, chosen: set<Section>,
                    wide: bool, segname: seq<Byte>, sectname: seq<Byte>)
    requires Chooses(img, secs, chosen, wide, segname, sectname) && forall s :: s in some ==> s in secs
    ensures Chooses(img, some, chosen, wide, segname, sectname)
  {
  }

  /** One turn of the outer loop: a section is found in this command, or the search goes on behind it. */
  method SearchNext(img: Image, sgp: nat, wide: bool, segname: seq<Byte>, sectname: seq<Byte>,
                    ghost left: nat, ghost secs: seq<Section>, ghost chosen: set<Section>)
    returns (r: Option<nat>, next: nat)
    requires NCMDS <= |img| && left > 0 && Looking(img, secs, chosen, sgp, left)
    requires Chooses(img, secs, chosen, wide, segname, sectname)
    ensures Searching(img, secs, chosen, next, left - 1, r)
  {
    LookingHere(img, secs, chosen, sgp, left);
    ChoosesSome(img, secs, CommandSections(img, sgp, false), chosen, wide, segname, sectname);
    r := SearchCommand(img, sgp, wide, segname, sectname, chosen);
    next := sgp + Word(img, sgp + 4, false);
    LookingStep(img, secs, chosen, sgp, left, next, r);
  }

  /** The outer loop of the lookup. */
  method SearchCommands(img: Image, start: nat, ncmds: nat, wide: bool, segname: seq<Byte>, sectname: seq<Byte>,
                        ghost secs: seq<Section>, ghost chosen: set<Section>)
    returns (r: Option<nat>)
    requires NCMDS <= |img| && Looking(img, secs, chosen, start, ncmds)
    requires Chooses(img, secs, chosen, wide, segname, sectname)
    ensures r == First(secs, chosen)
  {
    var sgp: nat, i: nat := start, 0;
    ghost var left: nat := ncmds;
    while i < ncmds
      invariant i <= ncmds && left == ncmds - i && Looking(img, secs, chosen, sgp, left)
    {
      r, sgp := SearchNext(img, sgp, wide, segname, sectname, left, secs, chosen);
      if r.Some? {
        return;
      }
      i, left := i + 1, left - 1;
    }
    LookingEnds(img, secs, chosen, sgp);
    r := None;
  }

  /** getsectbynamefromheader: the first wanted section, in file order. */
  method GetSectByName(img: Image, wide: bool, segname: seq<Byte>, sectname: seq<Byte>) returns (r: Option<nat>)
    requires KernelHeader(img, wide)
    ensures r == First(KernelSections(img, wide), WantedAmong(img, KernelSections(img, wide), wide, segname, sectname))
  {
    ghost var secs := KernelSections(img, wide);
    r := SearchCommands(img, HeaderSize(wide), Word(img, NCMDS, false), wide, segname, sectname,
                        secs, WantedAmong(img, secs, wide, segname, sectname));
  }
}
