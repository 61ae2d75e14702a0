/** What section lookup finds after the segment names were rewritten, and the walk over segments and sections. */
module MachLookup {
  import opened Base
  import opened MachO
  import opened SetSegname
  import opened SetSegnameLaws
  import opened MachHeader

  /** A stored name reads back as the clipped name. */
  lemma {:induction false} TextOfPadding(name: seq<Byte>, n: nat)
    requires 0 !in name
    ensures Text(name + seq(n, _ => 0)) == name
  {
    var field := name + seq(n, _ => 0);
    if name == [] {
      assert n > 0 ==> field[0] == 0;
    } else {
      assert field[1..] == name[1..] + seq(n, _ => 0);
      TextOfPadding(name[1..], n);
    }
  }

  lemma StoredName(out: Image, at: nat, name: seq<Byte>)
    requires at + NAME <= |out| && out[at..at + NAME] == Pad(name) && 0 !in name
    ensures Carries(out, at, name)
  {
    TextOfPadding(Clip(name), NAME - |Clip(name)|);
  }

  /** s and t are met in the n commands from o on. */
  predicate BothMet(img: Image, o: nat, n: nat, swap: bool, s: Section, t: Section) {
    && o <= |img| && CommandsOk(img, o, n, swap)
    && s in SectionsFrom(img, o, n, swap) && t in SectionsFrom(img, o, n, swap)
  }

  /** The name of the segment command of s is not part of the segname field of t. */
  predicate NameClear(s: Section, t: Section) {
    s.segment + 24 <= t.Field() || t.Field() + NAME <= s.segment
  }

  /** The names of segment commands are not segname fields of sections. */
  lemma {:induction false} SegmentNamesClear(img: Image, o: nat, n: nat, swap: bool, s: Section, t: Section)
    requires BothMet(img, o, n, swap, s, t)
    ensures o <= s.segment && NameClear(s, t)
    decreases n
  {
    if n > 0 {
      if s in CommandSections(img, o, swap) {
        NameOfFirst(img, o, n, swap, s, t);
      } else {
        var t' := if t in CommandSections(img, o, swap) then s else t;
        var next, m := MetLater(img, o, n, swap, s, t');
        SegmentNamesClear(img, next, m, swap, s, t');
        NameOfLater(img, o, swap, s, t);
      }
    }
  }

  lemma NameOfFirst(img: Image, o: nat, n: nat, swap: bool, s: Section, t: Section)
    requires n > 0 && BothMet(img, o, n, swap, s, t) && s in CommandSections(img, o, swap)
    ensures o == s.segment && NameClear(s, t)
  {
    CommandAnnounced(img, o, swap, s);
    SectionFurther(img, o, n, swap, t);
  }

  lemma NameOfLater(img: Image, o: nat, swap: bool, s: Section, t: Section)
    requires CommandOk(img, o, swap) && NextCommand(img, o, swap) <= s.segment
    requires t in CommandSections(img, o, swap) || NameClear(s, t)
    ensures NameClear(s, t)
  {
    if t in CommandSections(img, o, swap) {
      SectionInside(img, o, swap, t);
    }
  }

  lemma MetLater(img: Image, o: nat, n: nat, swap: bool, s: Section, t: Section) returns (next: nat, m: nat)
    requires n > 0 && BothMet(img, o, n, swap, s, t)
    requires s !in CommandSections(img, o, swap) && t !in CommandSections(img, o, swap)
    ensures CommandOk(img, o, swap) && next == NextCommand(img, o, swap) && n == m + 1
    ensures BothMet(img, next, m, swap, s, t)
  {
    next, m := NextCommand(img, o, swap), n - 1;
  }

  lemma SectionInside(img: Image, o: nat, swap: bool, t: Section)
    requires CommandOk(img, o, swap) && t in CommandSections(img, o, swap)
    ensures o + 56 <= t.at && t.at + t.Size() <= NextCommand(img, o, swap)
  {
    CommandOrdered(img, o, swap);
    SectionWithin(CommandSections(img, o, swap), o + 56, NextCommand(img, o, swap), t);
  }

  /** All section headers lie behind the name of the first command. */
  lemma SectionFurther(img: Image, o: nat, n: nat, swap: bool, t: Section)
    requires o <= |img| && n > 0 && CommandsOk(img, o, n, swap) && t in SectionsFrom(img, o, n, swap)
    ensures o + 24 <= t.Field()
  {
    var next := NextCommand(img, o, swap);
    if t in CommandSections(img, o, swap) {
      SectionInside(img, o, swap, t);
    } else {
      SectionsOrdered(img, next, n - 1, swap);
      SectionWithin(SectionsFrom(img, next, n - 1, swap), next, |img|, t);
    }
  }

  lemma SectionNamesClear(secs: seq<Section>, lo: nat, hi: nat, s: Section, t: Section)
    requires Ordered(secs, lo, hi) && s in secs && t in secs
    ensures s.at + NAME <= t.Field() || t.Field() + NAME <= s.at
  {
    var i :| 0 <= i < |secs| && secs[i] == s;
    var j :| 0 <= j < |secs| && secs[j] == t;
  }

  lemma CarriesKept(img: Image, out: Image, name: seq<Byte>, at: nat, text: seq<Byte>)
    requires WellFormed(img) && Rewritten(img, out, name) && at + NAME <= |img|
    requires forall t :: t in Sections(img) ==> at + NAME <= t.Field() || t.Field() + NAME <= at
    ensures |out| == |img| && (Carries(out, at, text) <==> Carries(img, at, text))
  {
    StretchKept(img, out, name, at, at + NAME);
  }

  lemma FiletypeKept(img: Image, out: Image, name: seq<Byte>)
    requires WellFormed(img) && Rewritten(img, out, name)
    ensures |out| == |img| && Word(out, FILETYPE, false) == Word(img, FILETYPE, false)
  {
    WellFormedFacts(img);
    forall s | s in Sections(img)
      ensures FILETYPE + 4 <= s.Field()
    {
      SectionWithin(Sections(img), HeaderSize(HeaderOf(img).value.wide), |img|, s);
    }
    StretchKept(img, out, name, FILETYPE, FILETYPE + 4);
    WordOfStretch(img, out, FILETYPE, false);
  }

  /** In terms of the original image: the section will be found under the new segment name. */
  predicate Findable(img: Image, s: Section, wide: bool, name: seq<Byte>, sectname: seq<Byte>) {
    && NCMDS <= |img| && Announced(img, s)
    && s.wide == wide && Searched(img, s.segment, name)
    && Carries(img, s.at, sectname)
    && (!IsDebug(img, s, false) || Carries(img, s.Field(), name))
  }

  lemma SegmentNameClear(img: Image, s: Section)
    requires WellFormed(img) && s in Sections(img)
    ensures Announced(img, s)
    ensures forall t :: t in Sections(img) ==> s.segment + 24 <= t.Field() || t.Field() + NAME <= s.segment
  {
    var h := HeaderOf(img).value;
    var o, n := HeaderSize(h.wide), Word(img, NCMDS, h.swap);
    SectionsAnnounced(img, o, n, h.swap, s);
    forall t | t in Sections(img)
      ensures s.segment + 24 <= t.Field() || t.Field() + NAME <= s.segment
    {
      SegmentNamesClear(img, o, n, h.swap, s, t);
    }
  }

  lemma SearchedAfter(img: Image, out: Image, s: Section, name: seq<Byte>)
    requires WellFormed(img) && Rewritten(img, out, name) && s in Sections(img)
    ensures Announced(img, s) && |out| == |img|
    ensures Searched(out, s.segment, name) <==> Searched(img, s.segment, name)
  {
    SegmentNameClear(img, s);
    CarriesKept(img, out, name, s.segment + SEGMENT_NAME, name);
    FiletypeKept(img, out, name);
    SearchedAlike(img, out, s.segment, name);
  }

  lemma SearchedAlike(img: Image, out: Image, at: nat, name: seq<Byte>)
    requires NCMDS <= |img| == |out| && at + 24 <= |img|
    requires Carries(out, at + SEGMENT_NAME, name) <==> Carries(img, at + SEGMENT_NAME, name)
    requires Word(out, FILETYPE, false) == Word(img, FILETYPE, false)
    ensures Searched(out, at, name) <==> Searched(img, at, name)
  {
  }

  lemma SectnameAfter(img: Image, out: Image, s: Section, name: seq<Byte>, sectname: seq<Byte>)
    requires WellFormed(img) && Rewritten(img, out, name) && s in Sections(img)
    ensures s.at + s.Size() <= |img| == |out|
    ensures Carries(out, s.at, sectname) <==> Carries(img, s.at, sectname)
  {
    WellFormedFacts(img);
    forall t | t in Sections(img)
      ensures s.at + NAME <= t.Field() || t.Field() + NAME <= s.at
    {
      SectionNamesClear(Sections(img), HeaderSize(HeaderOf(img).value.wide), |img|, s, t);
    }
    CarriesKept(img, out, name, s.at, sectname);
  }

  /** One section before and after: segment and section name are kept, the segname is the new one unless debug. */
  lemma WantedAfter(img: Image, out: Image, s: Section, wide: bool, name: seq<Byte>, sectname: seq<Byte>)
    requires WellFormed(img) && HeaderOf(img) == Some(Header(false, wide)) && Rewritten(img, out, name) && 0 !in name
    requires s in Sections(img)
    ensures Wanted(out, s, wide, name, sectname) <==> Findable(img, s, wide, name, sectname)
  {
    SearchedAfter(img, out, s, name);
    SectnameAfter(img, out, s, name, sectname);
    SegnameAfter(img, out, s, name);
  }

  lemma SegnameAfter(img: Image, out: Image, s: Section, name: seq<Byte>)
    requires WellFormed(img) && Rewritten(img, out, name) && 0 !in name && s in Sections(img)
    ensures s.at + s.Size() <= |img| == |out|
    ensures Carries(out, s.Field(), name)
        <==> (!IsDebug(img, s, HeaderOf(img).value.swap) || Carries(img, s.Field(), name))
  {
    WellFormedFacts(img);
    if !IsDebug(img, s, HeaderOf(img).value.swap) {
      StoredName(out, s.Field(), name);
    } else {
      forall b | s.Field() <= b < s.Field() + NAME
        ensures out[b] == img[b]
      {
        FieldsApart(img, s, b);
      }
      assert out[s.Field()..s.Field() + NAME] == img[s.Field()..s.Field() + NAME];
    }
  }

  /** A byte lies in the segname field of at most one section. */
  lemma FieldsApart(img: Image, s: Section, b: nat)
    requires WellFormed(img) && s in Sections(img) && InField(s, b)
    ensures forall t :: t in Sections(img) && InField(t, b) ==> t == s
  {
    WellFormedFacts(img);
    var secs := Sections(img);
    forall t | t in secs && InField(t, b)
      ensures t == s
    {
      var i :| 0 <= i < |secs| && secs[i] == s;
      var j :| 0 <= j < |secs| && secs[j] == t;
    }
  }

  function FindableAmong(img: Image, secs: seq<Section>, wide: bool, name: seq<Byte>,
      sectname: seq<Byte>): set<Section>
  {
    set s | s in secs && Findable(img, s, wide, name, sectname)
  }

  /** Lookup in the rewritten image under the new segment name. */
  lemma LookupAfterRenaming(img: Image, out: Image, wide: bool, name: seq<Byte>, sectname: seq<Byte>)
    requires WellFormed(img) && HeaderOf(img) == Some(Header(false, wide)) && Rewritten(img, out, name) && 0 !in name
    ensures KernelHeader(out, wide) && KernelSections(out, wide) == Sections(img)
    ensures First(Sections(img), WantedAmong(out, Sections(img), wide, name, sectname))
         == First(Sections(img), FindableAmong(img, Sections(img), wide, name, sectname))
  {
    TraversalUnaffected(img, out, name);
    var wanted := WantedAmong(out, Sections(img), wide, name, sectname);
    var findable := FindableAmong(img, Sections(img), wide, name, sectname);
    forall s | s in Sections(img)
      ensures s in wanted <==> s in findable
    {
      WantedAfter(img, out, s, wide, name, sectname);
    }
    FirstSame(Sections(img), wanted, findable);
  }

  /** In an object file a section is found exactly if it has the right width and name and is not debug or
      already carried the segment name. */
  lemma FindableInObject(img: Image, s: Section, wide: bool, name: seq<Byte>, sectname: seq<Byte>)
    requires WellFormed(img) && HeaderOf(img) == Some(Header(false, wide)) && Word(img, FILETYPE, false) == MH_OBJECT
    requires s in Sections(img)
    ensures s.at + s.Size() <= |img|
    ensures Findable(img, s, wide, name, sectname) <==>
      && s.wide == wide && Carries(img, s.at, sectname)
      && (!IsDebug(img, s, false) || Carries(img, s.Field(), name))
  {
    SectionsAnnounced(img, HeaderSize(wide), Word(img, NCMDS, false), false, s);
  }

  /** The sections of that name which are not debug or carried the segment name before. */
  function NamedAmong(img: Image, secs: seq<Section>, wide: bool, name: seq<Byte>, sectname: seq<Byte>): set<Section> {
    set s | s in secs && s.at + s.Size() <= |img| && s.wide == wide && Carries(img, s.at, sectname)
            && (!IsDebug(img, s, false) || Carries(img, s.Field(), name))
  }

  /** In a rewritten object file lookup finds the first of these: the segment the section lies in does not matter. */
  lemma LookupInObject(img: Image, out: Image, wide: bool, name: seq<Byte>, sectname: seq<Byte>)
    requires WellFormed(img) && HeaderOf(img) == Some(Header(false, wide)) && Rewritten(img, out, name) && 0 !in name
    requires Word(img, FILETYPE, false) == MH_OBJECT
    ensures KernelHeader(out, wide) && KernelSections(out, wide) == Sections(img)
    ensures First(Sections(img), WantedAmong(out, Sections(img), wide, name, sectname))
         == First(Sections(img), NamedAmong(img, Sections(img), wide, name, sectname))
  {
    LookupAfterRenaming(img, out, wide, name, sectname);
    var findable := FindableAmong(img, Sections(img), wide, name, sectname);
    var named := NamedAmong(img, Sections(img), wide, name, sectname);
    forall s | s in Sections(img)
      ensures s in findable <==> s in named
    {
      FindableInObject(img, s, wide, name, sectname);
    }
    FirstSame(Sections(img), findable, named);
  }

  // ---- Walking the segments of a header ----

  /** Offsets of the segment commands of the kernel's width among the n load commands from o on. */
  function Segments(img: Image, o: nat, n: nat, wide: bool): seq<nat>
    requires CommandsOk(img, o, n, false)
    decreases n
  {
    if n == 0 then []
    else (if KindAt(img, o, false) == Some(wide) then [o] else [])
         + Segments(img, NextCommand(img, o, false), n - 1, wide)
  }

  lemma {:induction false} SegmentsFrom(img: Image, o: nat, n: nat, wide: bool)
    requires CommandsOk(img, o, n, false)
    ensures forall i :: 0 <= i < |Segments(img, o, n, wide)| ==> o <= Segments(img, o, n, wide)[i]
    decreases n
  {
    if n > 0 {
      SegmentsFrom(img, NextCommand(img, o, false), n - 1, wide);
    }
  }

  function KernelSegments(img: Image, wide: bool): seq<nat>
    requires KernelHeader(img, wide)
  {
    Segments(img, HeaderSize(wide), Word(img, NCMDS, false), wide)
  }

  function Head(offsets: seq<nat>): Option<nat> {
    if offsets == [] then None else Some(offsets[0])
  }

  /** The loop both walks end with: the first segment command among the load commands from the i-th on. */
  method ScanSegments(img: Image, sgp0: nat, i0: nat, ncmds: nat, wide: bool, ghost n: nat) returns (r: Option<nat>)
    requires n == (if i0 <= ncmds then ncmds - i0 else 0) && CommandsOk(img, sgp0, n, false)
    ensures r == Head(Segments(img, sgp0, n, wide))
  {
    var sgp: nat, i := sgp0, i0;
    ghost var left := n;
    while i < ncmds
      invariant left == (if i <= ncmds then ncmds - i else 0) && CommandsOk(img, sgp, left, false)
      invariant Segments(img, sgp0, n, wide) == Segments(img, sgp, left, wide)
    {
      if KindAt(img, sgp, false) == Some(wide) {
        return Some(sgp);
      }
      assert Segments(img, sgp, left, wide) == Segments(img, NextCommand(img, sgp, false), left - 1, wide);
      sgp, i := sgp + Word(img, sgp + 4, false), i + 1;
      left := left - 1;
    }
    r := None;
  }

  /** firstsegfromheader. */
  method FirstSegFromHeader(img: Image, wide: bool) returns (r: Option<nat>)
    requires KernelHeader(img, wide)
    ensures r == Head(KernelSegments(img, wide))
  {
    r := ScanSegments(img, HeaderSize(wide), 0, Word(img, NCMDS, false), wide, Word(img, NCMDS, false));
  }

  /** Offsets of the n load commands from o on, of whatever kind. */
  function Commands(img: Image, o: nat, n: nat): seq<nat>
    requires CommandsOk(img, o, n, false)
    decreases n
  {
    if n == 0 then [] else [o] + Commands(img, NextCommand(img, o, false), n - 1)
  }

  /** Where the n load commands from o on end. */
  function CommandsEnd(img: Image, o: nat, n: nat): nat
    requires CommandsOk(img, o, n, false)
    decreases n
  {
    if n == 0 then o else CommandsEnd(img, NextCommand(img, o, false), n - 1)
  }

  lemma {:induction false} CommandsFrom(img: Image, o: nat, n: nat)
    requires CommandsOk(img, o, n, false)
    ensures forall c :: c in Commands(img, o, n) ==> o <= c
    decreases n
  {
    if n > 0 {
      CommandsFrom(img, NextCommand(img, o, false), n - 1);
    }
  }

  /** The first of the offsets that lies behind seg. */
  function FirstBehind(offsets: seq<nat>, seg: nat): Option<nat> {
    if offsets == [] then None
    else if offsets[0] > seg then Some(offsets[0])
    else FirstBehind(offsets[1..], seg)
  }

  /** Behind a load command seg: the first segment command among n from o on. Behind anything else: nothing. */
  function SegmentBehind(img: Image, o: nat, n: nat, wide: bool, seg: nat): Option<nat>
    requires CommandsOk(img, o, n, false)
  {
    if seg in Commands(img, o, n) then FirstBehind(Segments(img, o, n, wide), seg) else None
  }

  lemma FirstBehindAll(offsets: seq<nat>, seg: nat)
    requires forall i :: 0 <= i < |offsets| ==> seg < offsets[i]
    ensures FirstBehind(offsets, seg) == Head(offsets)
  {
  }

  /** What the search for seg keeps: it can go on from o, and its result will be `goal`. */
  predicate Seeking(img: Image, o: nat, n: nat, wide: bool, seg: nat, goal: Option<nat>) {
    && CommandsOk(img, o, n, false)
    && (seg in Commands(img, o, n) || CommandsEnd(img, o, n) + 8 <= |img|)
    && SegmentBehind(img, o, n, wide, seg) == goal
  }

  lemma SeekingPast(img: Image, o: nat, n: nat, wide: bool, seg: nat, goal: Option<nat>, m: nat)
    returns (next: nat)
    requires n == m + 1 && o != seg && Seeking(img, o, n, wide, seg, goal)
    ensures o + 8 <= |img| && next == o + Word(img, o + 4, false)
    ensures Seeking(img, next, m, wide, seg, goal)
  {
    next := NextCommand(img, o, false);
    var segs, rest := Segments(img, o, n, wide), Segments(img, next, m, wide);
    CommandsFrom(img, next, m);
    if KindAt(img, o, false) == Some(wide) {
      assert segs[1..] == rest;
    } else {
      assert segs == rest;
    }
  }

  lemma SeekingStops(img: Image, o: nat, n: nat, wide: bool, seg: nat, goal: Option<nat>)
    returns (next: nat, m: nat)
    requires Seeking(img, o, n, wide, seg, goal) && (o == seg || n == 0)
    ensures o + 8 <= |img| && next == o + Word(img, o + 4, false) && m == (if n == 0 then 0 else n - 1)
    ensures CommandsOk(img, next, m, false) && goal == Head(Segments(img, next, m, wide))
  {
    next, m := o + Word(img, o + 4, false), if n == 0 then 0 else n - 1;
    if n > 0 {
      var segs, rest := Segments(img, o, n, wide), Segments(img, next, m, wide);
      SegmentsFrom(img, next, m, wide);
      assert segs == if KindAt(img, o, false) == Some(wide) then [o] + rest else rest;
      FoundBehind(o, segs, rest);
    }
  }

  lemma FoundBehind(o: nat, segs: seq<nat>, rest: seq<nat>)
    requires segs == rest || segs == [o] + rest
    requires forall i :: 0 <= i < |rest| ==> o < rest[i]
    ensures FirstBehind(segs, o) == Head(rest)
  {
    FirstBehindAll(rest, o);
    if segs != rest {
      assert segs[1..] == rest;
    }
  }

  /** One turn of the first loop of nextsegfromheader. */
  method PassCommand(img: Image, sgp: nat, ghost n: nat, ghost wide: bool, ghost seg: nat, ghost goal: Option<nat>,
                     ghost m: nat)
    returns (next: nat)
    requires n == m + 1 && sgp != seg && Seeking(img, sgp, n, wide, seg, goal)
    ensures Seeking(img, next, m, wide, seg, goal)
  {
    ghost var past := SeekingPast(img, sgp, n, wide, seg, goal, m);
    next := sgp + Word(img, sgp + 4, false);
    assert next == past;
  }

  /** That loop: to the load command seg, or past all of them. */
  method SeekSegment(img: Image, wide: bool, seg: nat, ncmds: nat, ghost goal: Option<nat>)
    returns (sgp: nat, i: nat, ghost left: nat)
    requires Seeking(img, HeaderSize(wide), ncmds, wide, seg, goal)
    ensures i + left == ncmds && Seeking(img, sgp, left, wide, seg, goal)
    ensures sgp == seg || left == 0
  {
    sgp, i, left := HeaderSize(wide), 0, ncmds;
    while sgp != seg && i < ncmds
      invariant i + left == ncmds && Seeking(img, sgp, left, wide, seg, goal)
      decreases left
    {
      ghost var rest := left - 1;
      sgp := PassCommand(img, sgp, left, wide, seg, goal, rest);
      i, left := i + 1, rest;
    }
  }

  /**
   nextsegfromheader: the first segment command behind the load command seg. A seg that is no load command of
   the header gives NULL, once the size of one more command has been read behind the last one.
   */
  method NextSegFromHeader(img: Image, wide: bool, seg: nat) returns (r: Option<nat>)
    requires KernelHeader(img, wide)
    requires var o, n := HeaderSize(wide), Word(img, NCMDS, false);
      seg in Commands(img, o, n) || CommandsEnd(img, o, n) + 8 <= |img|
    ensures r == SegmentBehind(img, HeaderSize(wide), Word(img, NCMDS, false), wide, seg)
  {
    var ncmds := Word(img, NCMDS, false);
    ghost var goal := SegmentBehind(img, HeaderSize(wide), ncmds, wide, seg);
    var sgp, i, left := SeekSegment(img, wide, seg, ncmds, goal);
    ghost var next, n := SeekingStops(img, sgp, left, wide, seg, goal);
    i := i + 1;
    sgp := sgp + Word(img, sgp + 4, false);
    r := ScanSegments(img, sgp, i, ncmds, wide, n);
  }

  predicate Increasing(offsets: seq<nat>) {
    forall i, j :: 0 <= i < j < |offsets| ==> offsets[i] < offsets[j]
  }

  lemma IncreasingFrom(o: nat, rest: seq<nat>)
    requires Increasing(rest) && forall i :: 0 <= i < |rest| ==> o < rest[i]
    ensures Increasing([o] + rest)
  {
  }

  lemma {:induction false} SegmentsIncrease(img: Image, o: nat, n: nat, wide: bool)
    requires CommandsOk(img, o, n, false)
    ensures Increasing(Segments(img, o, n, wide))
    decreases n
  {
    if n > 0 {
      var rest := Segments(img, NextCommand(img, o, false), n - 1, wide);
      SegmentsIncrease(img, NextCommand(img, o, false), n - 1, wide);
      SegmentsFrom(img, NextCommand(img, o, false), n - 1, wide);
      IncreasingFrom(o, rest);
      assert Segments(img, o, n, wide) == rest || Segments(img, o, n, wide) == [o] + rest;
    }
  }

  lemma {:induction false} SegmentIsCommand(img: Image, o: nat, n: nat, wide: bool, seg: nat)
    requires CommandsOk(img, o, n, false) && seg in Segments(img, o, n, wide)
    ensures seg in Commands(img, o, n)
    decreases n
  {
    if n > 0 && seg != o {
      SegmentIsCommand(img, NextCommand(img, o, false), n - 1, wide, seg);
    }
  }

  lemma {:induction false} BehindNth(offsets: seq<nat>, k: nat)
    requires k < |offsets| && Increasing(offsets)
    ensures FirstBehind(offsets, offsets[k]) == Head(offsets[k + 1..])
  {
    if k == 0 {
      FirstBehindAll(offsets[1..], offsets[0]);
    } else {
      assert offsets[0] < offsets[k];
      assert offsets[1..][k - 1] == offsets[k] && offsets[1..][k..] == offsets[k + 1..];
      BehindNth(offsets[1..], k - 1);
    }
  }

  /** From each segment of the header the walk leads to the next one, and from the last to nothing. */
  lemma NextOfSegment(img: Image, wide: bool, k: nat)
    requires KernelHeader(img, wide) && k < |KernelSegments(img, wide)|
    ensures var seg := KernelSegments(img, wide)[k];
      && seg in Commands(img, HeaderSize(wide), Word(img, NCMDS, false))
      && SegmentBehind(img, HeaderSize(wide), Word(img, NCMDS, false), wide, seg)
         == Head(KernelSegments(img, wide)[k + 1..])
  {
    SegmentsIncrease(img, HeaderSize(wide), Word(img, NCMDS, false), wide);
    SegmentIsCommand(img, HeaderSize(wide), Word(img, NCMDS, false), wide, KernelSegments(img, wide)[k]);
    BehindNth(KernelSegments(img, wide), k);
  }

  /** firstsect: the section header right behind a segment command. */
  method FirstSect(img: Image, wide: bool, sgp: nat) returns (r: Option<nat>)
    requires CommandOk(img, sgp, false) && KindAt(img, sgp, false) == Some(wide)
    ensures var secs := CommandSections(img, sgp, false);
      r == if secs == [] then None else Some(secs[0].at)
  {
    if Word(img, sgp + CountOffset(wide), false) == 0 {
      return None;
    }
    r := Some(sgp + SegmentSize(wide));
  }

  /** nextsect: from each section of a segment to the one after it. */
  method NextSect(img: Image, wide: bool, sgp: nat, sp: nat, ghost k: nat) returns (r: Option<nat>)
    requires CommandOk(img, sgp, false) && KindAt(img, sgp, false) == Some(wide)
    requires k < |CommandSections(img, sgp, false)| && CommandSections(img, sgp, false)[k].at == sp
    ensures var secs := CommandSections(img, sgp, false);
      r == if k + 1 < |secs| then Some(secs[k + 1].at) else None
  {
    var fsp := FirstSect(img, wide, sgp);
    var nsects := Word(img, sgp + CountOffset(wide), false);
    SectionIndex(sgp, sgp + SegmentSize(wide), nsects, wide, k);
    if (sp - fsp.value) / SectionSize(wide) + 1 >= nsects {
      return None;
    }
    r := Some(sp + SectionSize(wide));
  }

  lemma SectionIndex(segment: nat, s: nat, n: nat, wide: bool, k: nat)
    requires k < |Consecutive(segment, s, n, wide)|
    ensures |Consecutive(segment, s, n, wide)| == n && Consecutive(segment, s, n, wide)[0].at == s
    ensures (Consecutive(segment, s, n, wide)[k].at - s) / SectionSize(wide) == k
    ensures k + 1 < n ==>
      Consecutive(segment, s, n, wide)[k + 1].at == Consecutive(segment, s, n, wide)[k].at + SectionSize(wide)
  {
    ConsecutiveAt(segment, s, n, wide, 0);
    ConsecutiveAt(segment, s, n, wide, k);
    if k + 1 < n {
      ConsecutiveAt(segment, s, n, wide, k + 1);
    }
    assert wide ==> k * 80 / 80 == k;
    assert k * 68 / 68 == k;
  }
}
