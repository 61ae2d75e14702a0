/** Rewriting the segment name of every non-debug section while the image is being traversed. */
module SetSegname {
  import opened Base
  import opened MachO

  /** What a 16-byte strncpy stores: the clipped name, padded with NULs. */
  function Pad(name: seq<Byte>): (r: seq<Byte>)
    ensures |r| == NAME
  {
    Clip(name) + seq(NAME - |Clip(name)|, _ => 0)
  }

  predicate Within(img: Image, secs: seq<Section>) {
    forall s :: s in secs ==> s.at + s.Size() <= |img|
  }

  /** Byte b belongs to the segname field of a section without the debug attribute. */
  predicate Written(img: Image, secs: seq<Section>, swap: bool, b: nat)
    requires Within(img, secs)
  {
    exists s :: s in secs && !IsDebug(img, s, swap) && InField(s, b)
  }

  /** out is img with the segname of each non-debug section replaced, and nothing else changed. */
  predicate Renamed(img: Image, out: Image, secs: seq<Section>, swap: bool, name: seq<Byte>)
    requires Within(img, secs)
  {
    && |out| == |img|
    && (forall s :: s in secs && !IsDebug(img, s, swap) ==> out[s.Field()..s.Field() + NAME] == Pad(name))
    && (forall b :: 0 <= b < |img| && !Written(img, secs, swap, b) ==> out[b] == img[b])
  }

  /** cur is img after the sections in done, which all end before o, were handled. */
  predicate Handled(img: Image, cur: Image, done: seq<Section>, o: nat, swap: bool, name: seq<Byte>) {
    Ordered(done, 0, o) && o <= |img| && Within(img, done) && Renamed(img, cur, done, swap, name)
  }

  /** One section more: its name is written unless the flags word carries the debug attribute. */
  lemma HandledStep(img: Image, cur: Image, next: Image, done: seq<Section>, s: Section, swap: bool, name: seq<Byte>)
    requires Handled(img, cur, done, s.at, swap, name) && s.at + s.Size() <= |img|
    requires next == if IsDebug(img, s, swap) then cur
                     else cur[..s.Field()] + Pad(name) + cur[s.Field() + NAME..]
    ensures Handled(img, next, done + [s], s.at + s.Size(), swap, name)
  {
    NamesStep(img, cur, next, done, s, swap, name);
    RestStep(img, cur, next, done, s, swap, name);
    OrderedAppend(done, [s], 0, s.at, s.at + s.Size());
  }

  lemma NamesStep(img: Image, cur: Image, next: Image, done: seq<Section>, s: Section, swap: bool, name: seq<Byte>)
    requires Handled(img, cur, done, s.at, swap, name) && s.at + s.Size() <= |img|
    requires next == if IsDebug(img, s, swap) then cur
                     else cur[..s.Field()] + Pad(name) + cur[s.Field() + NAME..]
    ensures forall t :: t in done + [s] && !IsDebug(img, t, swap) ==> next[t.Field()..t.Field() + NAME] == Pad(name)
  {
    forall t | t in done + [s] && !IsDebug(img, t, swap)
      ensures next[t.Field()..t.Field() + NAME] == Pad(name)
    {
      if t in done {
        SectionWithin(done, 0, s.at, t);
        NameStays(cur, next, s, t, IsDebug(img, s, swap), name);
      } else {
        NameWritten(cur, next, s.Field(), Pad(name));
      }
    }
  }

  /** The name of an earlier section is not touched by what is done to s. */
  lemma NameStays(cur: Image, next: Image, s: Section, t: Section, debug: bool, name: seq<Byte>)
    requires t.at + t.Size() <= s.at && s.at + s.Size() <= |cur|
    requires next == if debug then cur else cur[..s.Field()] + Pad(name) + cur[s.Field() + NAME..]
    ensures |next| == |cur| && next[t.Field()..t.Field() + NAME] == cur[t.Field()..t.Field() + NAME]
  {
    if !debug {
      NameWritten(cur, next, s.Field(), Pad(name));
      EarlierKept(cur, next, s.Field(), t);
    }
  }

  lemma NameWritten(cur: Image, next: Image, f: nat, field: seq<Byte>)
    requires f + NAME <= |cur| && |field| == NAME && next == cur[..f] + field + cur[f + NAME..]
    ensures |next| == |cur| && next[f..f + NAME] == field && next[..f] == cur[..f]
  {
  }

  lemma EarlierKept(cur: Image, next: Image, lo: nat, t: Section)
    requires |next| == |cur| && t.at + t.Size() <= lo <= |cur| && next[..lo] == cur[..lo]
    ensures next[t.Field()..t.Field() + NAME] == cur[t.Field()..t.Field() + NAME]
  {
    assert next[t.Field()..t.Field() + NAME] == next[..lo][t.Field()..t.Field() + NAME];
    assert cur[t.Field()..t.Field() + NAME] == cur[..lo][t.Field()..t.Field() + NAME];
  }

  lemma RestStep(img: Image, cur: Image, next: Image, done: seq<Section>, s: Section, swap: bool, name: seq<Byte>)
    requires Handled(img, cur, done, s.at, swap, name) && s.at + s.Size() <= |img|
    requires next == if IsDebug(img, s, swap) then cur
                     else cur[..s.Field()] + Pad(name) + cur[s.Field() + NAME..]
    ensures Within(img, done + [s])
    ensures forall b :: 0 <= b < |img| && !Written(img, done + [s], swap, b) ==> next[b] == img[b]
  {
    forall b | 0 <= b < |img| && !Written(img, done + [s], swap, b)
      ensures next[b] == img[b]
    {
      RestByte(img, cur, next, done, s, swap, name, b);
    }
  }

  lemma {:induction false} RestByte(img: Image, cur: Image, next: Image, done: seq<Section>, s: Section, swap: bool,
      name: seq<Byte>, b: nat)
    requires Within(img, done) && Renamed(img, cur, done, swap, name) && s.at + s.Size() <= |img|
    requires next == if IsDebug(img, s, swap) then cur
                     else cur[..s.Field()] + Pad(name) + cur[s.Field() + NAME..]
    requires Within(img, done + [s]) && b < |img| && !Written(img, done + [s], swap, b)
    ensures next[b] == img[b]
  {
    assert s in done + [s] && forall t :: t in done ==> t in done + [s];
    assert !Written(img, done, swap, b);
    assert IsDebug(img, s, swap) || !InField(s, b);
  }

  /** Nothing behind the sections already handled has changed. */
  lemma Untouched(img: Image, cur: Image, done: seq<Section>, o: nat, swap: bool, name: seq<Byte>)
    requires Handled(img, cur, done, o, swap, name)
    ensures forall b :: o <= b < |img| ==> cur[b] == img[b]
  {
    forall b | o <= b < |img|
      ensures !Written(img, done, swap, b)
    {
      if s :| s in done && InField(s, b) {
        SectionWithin(done, 0, o, s);
      }
    }
  }

  lemma WordUntouched(img: Image, cur: Image, done: seq<Section>, o: nat, w: nat, swap: bool, name: seq<Byte>)
    requires Handled(img, cur, done, o, swap, name) && o <= w && w + 4 <= |img|
    ensures Word(cur, w, swap) == Word(img, w, swap)
  {
    Untouched(img, cur, done, o, swap, name);
  }

  lemma HandledLater(img: Image, cur: Image, done: seq<Section>, o: nat, o': nat, swap: bool, name: seq<Byte>)
    requires Handled(img, cur, done, o, swap, name) && o <= o' <= |img|
    ensures Handled(img, cur, done, o', swap, name)
  {
  }

  /** strncpy of a name into the field at offset f. */
  method CopyName(img: array<Byte>, f: nat, name: seq<Byte>)
    requires f + NAME <= img.Length
    modifies img
    ensures img[..] == old(img[..f]) + Pad(name) + old(img[f + NAME..])
  {
    var i := 0;
    while i < NAME
      invariant i <= NAME
      invariant forall b :: 0 <= b < img.Length && !(f <= b < f + i) ==> img[b] == old(img[b])
      invariant forall j :: 0 <= j < i ==> img[f + j] == Pad(name)[j]
    {
      img[f + i] := if i < |name| then name[i] else 0;
      i := i + 1;
    }
  }

  /** One section header: the flags are tested before the name is written. */
  method RenameSection(img: array<Byte>, at: nat, wide: bool, swap: bool, name: seq<Byte>,
                       ghost segment: nat, ghost orig: Image, ghost past: seq<Section>)
    requires |orig| == img.Length && at + SectionSize(wide) <= |orig|
    requires Handled(orig, img[..], past, at, swap, name)
    modifies img
    ensures Handled(orig, img[..], past + [Section(segment, at, wide)], at + SectionSize(wide), swap, name)
  {
    ghost var s := Section(segment, at, wide);
    ghost var cur := img[..];
    WordUntouched(orig, cur, past, at, s.Flags(), swap, name);
    var attr := Word(img[..], if wide then at + 64 else at + 56, swap);
    if attr / S_ATTR_DEBUG % 2 == 0 {
      CopyName(img, at + 16, name);
    }
    HandledStep(orig, cur, img[..], past, s, swap, name);
  }

  /** The nsects section headers from `at` on, after those in `past`, are what is left of the count from start on. */
  predicate Upcoming(segment: nat, start: nat, count: nat, at: nat, nsects: nat, wide: bool,
                     done: seq<Section>, past: seq<Section>) {
    && at + SectionsSize(nsects, wide) == start + SectionsSize(count, wide)
    && past + Consecutive(segment, at, nsects, wide) == done + Consecutive(segment, start, count, wide)
  }

  lemma UpcomingStep(segment: nat, start: nat, count: nat, at: nat, nsects: nat, wide: bool,
                     done: seq<Section>, past: seq<Section>)
    requires nsects > 0 && Upcoming(segment, start, count, at, nsects, wide, done, past)
    ensures at + SectionSize(wide) <= start + SectionsSize(count, wide)
    ensures Upcoming(segment, start, count, at + SectionSize(wide), nsects - 1, wide, done,
                     past + [Section(segment, at, wide)])
  {
    Reassociate(past, [Section(segment, at, wide)], Consecutive(segment, at + SectionSize(wide), nsects - 1, wide));
  }

  /** The sections of one segment command. orig is the image before any write, done what was handled before. */
  method RenameSections(img: array<Byte>, start: nat, count: nat, wide: bool, swap: bool, name: seq<Byte>,
                        ghost segment: nat, ghost orig: Image, ghost done: seq<Section>)
    requires |orig| == img.Length && start + SectionsSize(count, wide) <= |orig|
    requires Handled(orig, img[..], done, start, swap, name)
    modifies img
    ensures Handled(orig, img[..], done + Consecutive(segment, start, count, wide),
                    start + SectionsSize(count, wide), swap, name)
  {
    var at: nat, nsects: nat := start, count;
    ghost var past := done;
    while nsects > 0
      invariant Upcoming(segment, start, count, at, nsects, wide, done, past)
      invariant Handled(orig, img[..], past, at, swap, name)
    {
      UpcomingStep(segment, start, count, at, nsects, wide, done, past);
      RenameSection(img, at, wide, swap, name, segment, orig, past);
      past := past + [Section(segment, at, wide)];
      at, nsects := at + SectionSize(wide), nsects - 1;
    }
    assert past + [] == past;
  }

  lemma Reassociate(a: seq<Section>, b: seq<Section>, c: seq<Section>)
    ensures a + (b + c) == (a + b) + c
  {
  }

  /** The sections of the segment command at o. */
  method RenameSegment(img: array<Byte>, o: nat, wide: bool, swap: bool, name: seq<Byte>,
                       ghost orig: Image, ghost past: seq<Section>)
    requires |orig| == img.Length && CommandOk(orig, o, swap) && KindAt(orig, o, swap) == Some(wide)
    requires Handled(orig, img[..], past, o, swap, name)
    modifies img
    ensures Handled(orig, img[..], past + CommandSections(orig, o, swap), NextCommand(orig, o, swap), swap, name)
  {
    WordUntouched(orig, img[..], past, o, o + CountOffset(wide), swap, name);
    var nsects := Word(img[..], o + CountOffset(wide), swap);
    var sects := o + SegmentSize(wide);
    HandledLater(orig, img[..], past, o, sects, swap, name);
    RenameSections(img, sects, nsects, wide, swap, name, o, orig, past);
    HandledLater(orig, img[..], past + Consecutive(o, sects, nsects, wide), sects + SectionsSize(nsects, wide),
                 NextCommand(orig, o, swap), swap, name);
  }

  /** One load command; returns the offset of the next one. */
  method RenameCommand(img: array<Byte>, o: nat, swap: bool, name: seq<Byte>, ghost orig: Image,
      ghost past: seq<Section>)
    returns (next: nat)
    requires |orig| == img.Length && CommandOk(orig, o, swap)
    requires Handled(orig, img[..], past, o, swap, name)
    modifies img
    ensures next == NextCommand(orig, o, swap)
    ensures Handled(orig, img[..], past + CommandSections(orig, o, swap), next, swap, name)
  {
    WordUntouched(orig, img[..], past, o, o, swap, name);
    var cmdtype := Word(img[..], o, swap);
    if cmdtype == LC_SEGMENT {
      RenameSegment(img, o, false, swap, name, orig, past);
    } else if cmdtype == LC_SEGMENT_64 {
      RenameSegment(img, o, true, swap, name, orig, past);
    } else {
      assert past + [] == past;
      HandledLater(orig, img[..], past, o, NextCommand(orig, o, swap), swap, name);
    }
    SizeUntouched(orig, img[..], past, o, swap, name);
    var len := Word(img[..], o + 4, swap);
    next := o + len;
  }

  /** The size of a command is still there after the names of its own sections were written. */
  lemma SizeUntouched(img: Image, cur: Image, past: seq<Section>, o: nat, swap: bool, name: seq<Byte>)
    requires CommandOk(img, o, swap) && Ordered(past, 0, o)
    requires Within(img, past + CommandSections(img, o, swap))
    requires Renamed(img, cur, past + CommandSections(img, o, swap), swap, name)
    ensures Word(cur, o + 4, swap) == Word(img, o + 4, swap)
  {
    var secs := past + CommandSections(img, o, swap);
    CommandOrdered(img, o, swap);
    forall s | s in secs
      ensures s.Field() + NAME <= o || o + 56 <= s.Field()
    {
      if s in past {
        SectionWithin(past, 0, o, s);
      } else {
        SectionWithin(CommandSections(img, o, swap), o + 56, NextCommand(img, o, swap), s);
      }
    }
    SizeBytesKept(img, cur, secs, o, swap, name);
  }

  lemma SizeBytesKept(img: Image, cur: Image, secs: seq<Section>, o: nat, swap: bool, name: seq<Byte>)
    requires o + 8 <= |img| && Within(img, secs) && Renamed(img, cur, secs, swap, name)
    requires forall s :: s in secs ==> s.Field() + NAME <= o || o + 56 <= s.Field()
    ensures Word(cur, o + 4, swap) == Word(img, o + 4, swap)
  {
    forall b | o + 4 <= b < o + 8
      ensures !Written(img, secs, swap, b)
    {
    }
  }

  /** past and the sections of the n commands from o on make up all. */
  predicate Remaining(img: Image, all: seq<Section>, past: seq<Section>, o: nat, n: nat, swap: bool) {
    o <= |img| && CommandsOk(img, o, n, swap) && past + SectionsFrom(img, o, n, swap) == all
  }

  lemma RemainingStep(img: Image, all: seq<Section>, past: seq<Section>, o: nat, n: nat, swap: bool)
    requires Remaining(img, all, past, o, n, swap) && n > 0
    ensures CommandOk(img, o, swap)
    ensures Remaining(img, all, past + CommandSections(img, o, swap), NextCommand(img, o, swap), n - 1, swap)
  {
    Reassociate(past, CommandSections(img, o, swap), SectionsFrom(img, NextCommand(img, o, swap), n - 1, swap));
  }

  lemma RemainingDone(img: Image, all: seq<Section>, past: seq<Section>, o: nat, swap: bool)
    requires Remaining(img, all, past, o, 0, swap)
    ensures past == all
  {
  }

  lemma HandledNothing(img: Image, o: nat, swap: bool, name: seq<Byte>)
    requires o <= |img|
    ensures Handled(img, img, [], o, swap, name)
  {
  }

  /** The loop over the load commands. */
  method RenameCommands(img: array<Byte>, start: nat, count: nat, swap: bool, name: seq<Byte>,
                        ghost orig: Image, ghost all: seq<Section>)
    requires orig == img[..] && Remaining(orig, all, [], start, count, swap)
    modifies img
    ensures |orig| == img.Length && Within(orig, all) && Renamed(orig, img[..], all, swap, name)
  {
    var o: nat, ncmds: nat := start, count;
    ghost var past: seq<Section> := [];
    HandledNothing(orig, o, swap, name);
    while ncmds > 0
      invariant Remaining(orig, all, past, o, ncmds, swap)
      invariant Handled(orig, img[..], past, o, swap, name)
    {
      RemainingStep(orig, all, past, o, ncmds, swap);
      var next := RenameCommand(img, o, swap, name, orig, past);
      past := past + CommandSections(orig, o, swap);
      o, ncmds := next, ncmds - 1;
    }
    RemainingDone(orig, all, past, o, swap);
  }

  /** What main does to the mapped image: false for a magic that is not Mach-O, with nothing written. */
  method SetSegname(img: array<Byte>, name: seq<Byte>) returns (ok: bool)
    requires img.Length >= 28 && (HeaderOf(img[..]).Some? ==> WellFormed(img[..]))
    modifies img
    ensures ok <==> HeaderOf(old(img[..])).Some?
    ensures !ok ==> img[..] == old(img[..])
    ensures ok ==> var orig := old(img[..]);
      Within(orig, Sections(orig)) && Renamed(orig, img[..], Sections(orig), HeaderOf(orig).value.swap, name)
  {
    var swap, o := false, 28;
    var magic := Word(img[..], 0, false);
    if magic == MH_CIGAM {
      swap := true;
    } else if magic == MH_MAGIC {
    } else if magic == MH_CIGAM_64 {
      swap, o := true, 32;
    } else if magic == MH_MAGIC_64 {
      o := 32;
    } else {
      return false;
    }
    var ncmds := Word(img[..], NCMDS, swap);
    ghost var orig := img[..];
    assert [] + Sections(orig) == Sections(orig);
    RenameCommands(img, o, ncmds, swap, name, orig, Sections(orig));
    ok := true;
  }
}
