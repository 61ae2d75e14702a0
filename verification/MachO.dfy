/** A Mach-O image as bytes: its load commands, the sections they announce, and the words a traversal reads. */
module MachO {
  import opened Base

  type Image = seq<Byte>

  const MH_MAGIC := 0xfeedface
  const MH_CIGAM := 0xcefaedfe
  const MH_MAGIC_64 := 0xfeedfacf
  const MH_CIGAM_64 := 0xcffaedfe
  const MH_OBJECT := 1
  const LC_SEGMENT := 1
  const LC_SEGMENT_64 := 0x19
  const S_ATTR_DEBUG := 0x02000000

  /** Offsets of the mach_header fields that are read. */
  const FILETYPE := 12
  const NCMDS := 16

  /** Length of every name field. */
  const NAME := 16

  /** Offset of the name of a segment command. */
  const SEGMENT_NAME := 8

  /** A section header: the segment command that announces it, its offset, and whether it is a section_64. */
  datatype Section = Section(segment: nat, at: nat, wide: bool) {
    function Size(): nat { SectionSize(wide) }
    function Field(): nat { at + 16 }
    function Flags(): nat { if wide then at + 64 else at + 56 }
  }

  function SectionSize(wide: bool): nat { if wide then 80 else 68 }

  /** Of k section headers. */
  function SectionsSize(k: nat, wide: bool): nat { if wide then 80 * k else 68 * k }

  function SegmentSize(wide: bool): nat { if wide then 72 else 56 }

  function CountOffset(wide: bool): nat { if wide then 64 else 48 }

  function HeaderSize(wide: bool): nat { if wide then 32 else 28 }

  /** A 32-bit word in the host's byte order (little-endian), or byte-swapped. */
  function Word(img: Image, at: nat, swap: bool): (w: nat)
    requires at + 4 <= |img|
    ensures w < 0x1_0000_0000
  {
    var b0, b1, b2, b3 := img[at] as int, img[at + 1] as int, img[at + 2] as int, img[at + 3] as int;
    if swap then b3 + b2 * 0x100 + b1 * 0x1_0000 + b0 * 0x100_0000
    else b0 + b1 * 0x100 + b2 * 0x1_0000 + b3 * 0x100_0000
  }

  /** Byte order of an image and width of its header. */
  datatype Header = Header(swap: bool, wide: bool)

  function HeaderOf(img: Image): Option<Header>
    requires |img| >= 4
  {
    var magic := Word(img, 0, false);
    if magic == MH_CIGAM then Some(Header(true, false))
    else if magic == MH_MAGIC then Some(Header(false, false))
    else if magic == MH_CIGAM_64 then Some(Header(true, true))
    else if magic == MH_MAGIC_64 then Some(Header(false, true))
    else None
  }

  /** Whether a command is a segment, and then whether a 64-bit one. */
  function SegmentKind(cmd: nat): Option<bool> {
    if cmd == LC_SEGMENT then Some(false)
    else if cmd == LC_SEGMENT_64 then Some(true)
    else None
  }

  function KindAt(img: Image, o: nat, swap: bool): Option<bool>
    requires o + 4 <= |img|
  {
    SegmentKind(Word(img, o, swap))
  }

  /** A load command that lies within the image and holds the sections it announces. */
  predicate CommandOk(img: Image, o: nat, swap: bool) {
    && o + 8 <= |img|
    && var size, kind := Word(img, o + 4, swap), KindAt(img, o, swap);
       && 8 <= size
       && o + size <= |img|
       && (kind.Some? ==>
             && SegmentSize(kind.value) <= size
             && SegmentSize(kind.value)
                + SectionsSize(Word(img, o + CountOffset(kind.value), swap), kind.value) <= size)
  }

  function NextCommand(img: Image, o: nat, swap: bool): (o': nat)
    requires CommandOk(img, o, swap)
    ensures o + 8 <= o' <= |img|
  {
    o + Word(img, o + 4, swap)
  }

  /** n load commands from offset o on. */
  predicate CommandsOk(img: Image, o: nat, n: nat, swap: bool)
    decreases n
  {
    n == 0 || (CommandOk(img, o, swap) && CommandsOk(img, NextCommand(img, o, swap), n - 1, swap))
  }

  predicate WellFormed(img: Image) {
    && |img| >= 28
    && HeaderOf(img).Some?
    && var h := HeaderOf(img).value;
       HeaderSize(h.wide) <= |img| && CommandsOk(img, HeaderSize(h.wide), Word(img, NCMDS, h.swap), h.swap)
  }

  /** k consecutive section headers from offset s on. */
  function Consecutive(segment: nat, s: nat, k: nat, wide: bool): seq<Section>
    decreases k
  {
    if k == 0 then [] else [Section(segment, s, wide)] + Consecutive(segment, s + SectionSize(wide), k - 1, wide)
  }

  function CommandSections(img: Image, o: nat, swap: bool): seq<Section>
    requires CommandOk(img, o, swap)
  {
    var kind := KindAt(img, o, swap);
    if kind.None? then []
    else Consecutive(o, o + SegmentSize(kind.value), Word(img, o + CountOffset(kind.value), swap), kind.value)
  }

  function SectionsFrom(img: Image, o: nat, n: nat, swap: bool): seq<Section>
    requires CommandsOk(img, o, n, swap)
    decreases n
  {
    if n == 0 then [] else CommandSections(img, o, swap) + SectionsFrom(img, NextCommand(img, o, swap), n - 1, swap)
  }

  /** All section headers of an image, in file order. */
  function Sections(img: Image): seq<Section>
    requires WellFormed(img)
  {
    var h := HeaderOf(img).value;
    SectionsFrom(img, HeaderSize(h.wide), Word(img, NCMDS, h.swap), h.swap)
  }

  predicate IsDebug(img: Image, s: Section, swap: bool)
    requires s.at + s.Size() <= |img|
  {
    Word(img, s.Flags(), swap) / S_ATTR_DEBUG % 2 == 1
  }

  /** Byte b lies in the segname field of section s. */
  predicate InField(s: Section, b: nat) {
    s.Field() <= b < s.Field() + NAME
  }

  /** Section headers that follow one another without overlap between lo and hi. */
  predicate Ordered(secs: seq<Section>, lo: nat, hi: nat) {
    && lo <= hi
    && (forall i :: 0 <= i < |secs| ==> lo <= secs[i].at && secs[i].at + secs[i].Size() <= hi)
    && (forall i, j :: 0 <= i < j < |secs| ==> secs[i].at + secs[i].Size() <= secs[j].at)
  }

  lemma OrderedAppend(a: seq<Section>, b: seq<Section>, lo: nat, mid: nat, hi: nat)
    requires Ordered(a, lo, mid) && Ordered(b, mid, hi)
    ensures Ordered(a + b, lo, hi)
  {
    var c := a + b;
    forall i, j | 0 <= i < j < |c|
      ensures c[i].at + c[i].Size() <= c[j].at
    {
      if i < |a| <= j {
        assert c[i] == a[i] && c[j] == b[j - |a|];
      } else if j < |a| {
        assert c[i] == a[i] && c[j] == a[j];
      } else {
        assert c[i] == b[i - |a|] && c[j] == b[j - |a|];
      }
    }
  }

  lemma {:induction false} ConsecutiveOrdered(segment: nat, s: nat, k: nat, wide: bool)
    ensures Ordered(Consecutive(segment, s, k, wide), s, s + SectionsSize(k, wide))
    decreases k
  {
    if k > 0 {
      var next := s + SectionSize(wide);
      ConsecutiveOrdered(segment, next, k - 1, wide);
      OrderedAppend([Section(segment, s, wide)], Consecutive(segment, next, k - 1, wide), s, next,
                    s + SectionsSize(k, wide));
    }
  }

  lemma CommandOrdered(img: Image, o: nat, swap: bool)
    requires CommandOk(img, o, swap)
    ensures Ordered(CommandSections(img, o, swap), o + 56, NextCommand(img, o, swap))
        || CommandSections(img, o, swap) == []
  {
    var kind := KindAt(img, o, swap);
    if kind.Some? {
      ConsecutiveOrdered(o, o + SegmentSize(kind.value), Word(img, o + CountOffset(kind.value), swap), kind.value);
    }
  }

  lemma {:induction false} SectionsOrdered(img: Image, o: nat, n: nat, swap: bool)
    requires o <= |img| && CommandsOk(img, o, n, swap)
    ensures Ordered(SectionsFrom(img, o, n, swap), o, |img|)
    decreases n
  {
    if n > 0 {
      var next := NextCommand(img, o, swap);
      SectionsOrdered(img, next, n - 1, swap);
      CommandOrdered(img, o, swap);
      OrderedAppend(CommandSections(img, o, swap), SectionsFrom(img, next, n - 1, swap), o, next, |img|);
    }
  }

  /** Offsets of the words a traversal of one command reads. */
  function CommandReads(img: Image, o: nat, swap: bool): set<nat>
    requires CommandOk(img, o, swap)
  {
    {o, o + 4}
    + (if KindAt(img, o, swap).Some? then {o + CountOffset(KindAt(img, o, swap).value)} else {})
    + (set s | s in CommandSections(img, o, swap) :: s.Flags())
  }

  function ReadsFrom(img: Image, o: nat, n: nat, swap: bool): set<nat>
    requires CommandsOk(img, o, n, swap)
    decreases n
  {
    if n == 0 then {} else CommandReads(img, o, swap) + ReadsFrom(img, NextCommand(img, o, swap), n - 1, swap)
  }

  /** Offsets of all words a traversal of the image reads. */
  function Reads(img: Image): set<nat>
    requires WellFormed(img)
  {
    var h := HeaderOf(img).value;
    {0, NCMDS} + ReadsFrom(img, HeaderSize(h.wide), Word(img, NCMDS, h.swap), h.swap)
  }

  /** The word at w and the segname field of s have no byte in common. */
  predicate Clear(w: nat, s: Section) {
    w + 4 <= s.Field() || s.Field() + NAME <= w
  }

  lemma FlagsClear(secs: seq<Section>, lo: nat, hi: nat, s: Section, t: Section)
    requires Ordered(secs, lo, hi) && s in secs && t in secs
    ensures Clear(t.Flags(), s) && lo <= t.Flags() && t.Flags() + 4 <= hi
  {
    var i :| 0 <= i < |secs| && secs[i] == t;
    var j :| 0 <= j < |secs| && secs[j] == s;
  }

  lemma CommandReadsWithin(img: Image, o: nat, swap: bool, w: nat)
    requires CommandOk(img, o, swap) && w in CommandReads(img, o, swap)
    ensures o <= w && w + 4 <= NextCommand(img, o, swap)
  {
    CommandOrdered(img, o, swap);
    if s :| s in CommandSections(img, o, swap) && w == s.Flags() {
      FlagsClear(CommandSections(img, o, swap), o + 56, NextCommand(img, o, swap), s, s);
    }
  }

  lemma SegmentOrdered(img: Image, o: nat, swap: bool)
    requires CommandOk(img, o, swap) && KindAt(img, o, swap).Some?
    ensures Ordered(CommandSections(img, o, swap), o + SegmentSize(KindAt(img, o, swap).value),
                    NextCommand(img, o, swap))
  {
    var kind := KindAt(img, o, swap).value;
    ConsecutiveOrdered(o, o + SegmentSize(kind), Word(img, o + CountOffset(kind), swap), kind);
  }

  /** A word read from a segment command is one of its own or the flags of one of its sections. */
  lemma SegmentReads(img: Image, o: nat, swap: bool, w: nat) returns (s: Option<Section>)
    requires CommandOk(img, o, swap) && KindAt(img, o, swap).Some? && w in CommandReads(img, o, swap)
    ensures s.None? ==> o <= w && w + 4 <= o + SegmentSize(KindAt(img, o, swap).value)
    ensures s.Some? ==> s.value in CommandSections(img, o, swap) && w == s.value.Flags()
  {
    if t :| t in CommandSections(img, o, swap) && w == t.Flags() {
      s := Some(t);
    } else {
      s := None;
    }
  }

  lemma CommandReadsClear(img: Image, o: nat, swap: bool, w: nat, s: Section)
    requires CommandOk(img, o, swap) && w in CommandReads(img, o, swap) && s in CommandSections(img, o, swap)
    ensures Clear(w, s)
  {
    var start, end := o + SegmentSize(KindAt(img, o, swap).value), NextCommand(img, o, swap);
    SegmentOrdered(img, o, swap);
    var t := SegmentReads(img, o, swap, w);
    if t.Some? {
      FlagsClear(CommandSections(img, o, swap), start, end, s, t.value);
    } else {
      HeadIsClear(CommandSections(img, o, swap), start, end, w, s);
    }
  }

  lemma HeadIsClear(secs: seq<Section>, start: nat, end: nat, w: nat, s: Section)
    requires Ordered(secs, start, end) && s in secs && w + 4 <= start
    ensures Clear(w, s)
  {
    SectionWithin(secs, start, end, s);
  }

  lemma {:induction false} ReadsWithin(img: Image, o: nat, n: nat, swap: bool, w: nat)
    requires CommandsOk(img, o, n, swap) && w in ReadsFrom(img, o, n, swap)
    ensures o <= w && w + 4 <= |img|
    decreases n
  {
    if n > 0 {
      if w in CommandReads(img, o, swap) {
        CommandReadsWithin(img, o, swap, w);
      } else {
        ReadsWithin(img, NextCommand(img, o, swap), n - 1, swap, w);
      }
    }
  }

  lemma SectionWithin(secs: seq<Section>, lo: nat, hi: nat, s: Section)
    requires Ordered(secs, lo, hi) && s in secs
    ensures lo <= s.at && s.at + s.Size() <= hi
  {
    var i :| 0 <= i < |secs| && secs[i] == s;
  }

  /** w is read, and s is met, in the n commands from o on. */
  predicate Meets(img: Image, o: nat, n: nat, swap: bool, w: nat, s: Section) {
    && o <= |img| && CommandsOk(img, o, n, swap)
    && w in ReadsFrom(img, o, n, swap) && s in SectionsFrom(img, o, n, swap)
  }

  /** No word a traversal reads overlaps the segname field of any section. */
  lemma {:induction false} ReadsClear(img: Image, o: nat, n: nat, swap: bool, w: nat, s: Section)
    requires Meets(img, o, n, swap, w, s)
    ensures Clear(w, s)
    decreases n
  {
    if n > 0 && !Clear(w, s) {
      MeetsLater(img, o, n, swap, w, s);
      ReadsClear(img, NextCommand(img, o, swap), n - 1, swap, w, s);
    }
  }

  lemma MeetsLater(img: Image, o: nat, n: nat, swap: bool, w: nat, s: Section)
    requires n > 0 && Meets(img, o, n, swap, w, s) && !Clear(w, s)
    ensures CommandOk(img, o, swap) && Meets(img, NextCommand(img, o, swap), n - 1, swap, w, s)
  {
    ReadsClearHere(img, o, NextCommand(img, o, swap), n - 1, swap, w, s);
  }

  /** If the word or the section belongs to the first command. */
  lemma ReadsClearHere(img: Image, o: nat, next: nat, n: nat, swap: bool, w: nat, s: Section)
    requires CommandOk(img, o, swap) && next == NextCommand(img, o, swap) && CommandsOk(img, next, n, swap)
    requires w in CommandReads(img, o, swap) + ReadsFrom(img, next, n, swap)
    requires s in CommandSections(img, o, swap) + SectionsFrom(img, next, n, swap)
    ensures Clear(w, s) || (w in ReadsFrom(img, next, n, swap) && s in SectionsFrom(img, next, n, swap))
  {
    if w in CommandReads(img, o, swap) {
      if s in CommandSections(img, o, swap) {
        CommandReadsClear(img, o, swap, w, s);
      } else {
        ReadBeforeSection(img, o, next, n, swap, w, s);
      }
    } else if s in CommandSections(img, o, swap) {
      ReadAfterSection(img, o, next, n, swap, w, s);
    }
  }

  lemma ReadBeforeSection(img: Image, o: nat, next: nat, n: nat, swap: bool, w: nat, s: Section)
    requires CommandOk(img, o, swap) && next == NextCommand(img, o, swap) && CommandsOk(img, next, n, swap)
    requires w in CommandReads(img, o, swap) && s in SectionsFrom(img, next, n, swap)
    ensures Clear(w, s)
  {
    CommandReadsWithin(img, o, swap, w);
    SectionsOrdered(img, next, n, swap);
    SectionWithin(SectionsFrom(img, next, n, swap), next, |img|, s);
  }

  lemma ReadAfterSection(img: Image, o: nat, next: nat, n: nat, swap: bool, w: nat, s: Section)
    requires CommandOk(img, o, swap) && next == NextCommand(img, o, swap) && CommandsOk(img, next, n, swap)
    requires s in CommandSections(img, o, swap) && w in ReadsFrom(img, next, n, swap)
    ensures Clear(w, s)
  {
    ReadsWithin(img, next, n, swap, w);
    CommandOrdered(img, o, swap);
    SectionWithin(CommandSections(img, o, swap), o + 56, next, s);
  }

  /** The words at the given offsets have the same values in b as in a, b being read in the other byte order if turn. */
  predicate SameWords(a: Image, b: Image, words: set<nat>, swap: bool, turn: bool) {
    && |a| == |b|
    && (forall w :: w in words ==> w + 4 <= |a| && Word(b, w, swap != turn) == Word(a, w, swap))
  }

  /** Images that agree on the words read are traversed in the same way. */
  lemma {:induction false} SameTraversal(a: Image, b: Image, o: nat, n: nat, swap: bool, turn: bool)
    requires o <= |a| && CommandsOk(a, o, n, swap) && SameWords(a, b, ReadsFrom(a, o, n, swap), swap, turn)
    ensures CommandsOk(b, o, n, swap != turn)
    ensures SectionsFrom(b, o, n, swap != turn) == SectionsFrom(a, o, n, swap)
    ensures ReadsFrom(b, o, n, swap != turn) == ReadsFrom(a, o, n, swap)
    decreases n
  {
    if n > 0 {
      SameWordsSome(a, b, ReadsFrom(a, o, n, swap), CommandReads(a, o, swap), swap, turn);
      SameWordsSome(a, b, ReadsFrom(a, o, n, swap), ReadsFrom(a, NextCommand(a, o, swap), n - 1, swap), swap, turn);
      SameCommand(a, b, o, swap, turn);
      SameTraversal(a, b, NextCommand(a, o, swap), n - 1, swap, turn);
    }
  }

  lemma SameWordsSome(a: Image, b: Image, words: set<nat>, some: set<nat>, swap: bool, turn: bool)
    requires SameWords(a, b, words, swap, turn) && some <= words
    ensures SameWords(a, b, some, swap, turn)
  {
  }

  lemma SameCommand(a: Image, b: Image, o: nat, swap: bool, turn: bool)
    requires CommandOk(a, o, swap) && SameWords(a, b, CommandReads(a, o, swap), swap, turn)
    ensures CommandOk(b, o, swap != turn) && NextCommand(b, o, swap != turn) == NextCommand(a, o, swap)
    ensures CommandSections(b, o, swap != turn) == CommandSections(a, o, swap)
    ensures CommandReads(b, o, swap != turn) == CommandReads(a, o, swap)
  {
    var words := CommandReads(a, o, swap);
    SameWord(a, b, words, swap, turn, o);
    SameWord(a, b, words, swap, turn, o + 4);
    var kind := KindAt(a, o, swap);
    if kind.Some? {
      SameWord(a, b, words, swap, turn, o + CountOffset(kind.value));
    }
    SameCommandWords(a, b, o, swap, swap != turn);
  }

  lemma SameCommandWords(a: Image, b: Image, o: nat, swap: bool, swap': bool)
    requires CommandOk(a, o, swap) && |a| == |b|
    requires Word(b, o, swap') == Word(a, o, swap) && Word(b, o + 4, swap') == Word(a, o + 4, swap)
    requires var kind := KindAt(a, o, swap);
      kind.Some? ==> Word(b, o + CountOffset(kind.value), swap') == Word(a, o + CountOffset(kind.value), swap)
    ensures CommandOk(b, o, swap') && NextCommand(b, o, swap') == NextCommand(a, o, swap)
    ensures CommandSections(b, o, swap') == CommandSections(a, o, swap)
    ensures CommandReads(b, o, swap') == CommandReads(a, o, swap)
  {
    assert KindAt(b, o, swap') == KindAt(a, o, swap);
  }

  lemma SameWord(a: Image, b: Image, words: set<nat>, swap: bool, turn: bool, w: nat)
    requires SameWords(a, b, words, swap, turn) && w in words
    ensures w + 4 <= |a| && Word(b, w, swap != turn) == Word(a, w, swap)
  {
  }

  /** The flags word of every section is one of the words read. */
  lemma {:induction false} FlagsAreRead(img: Image, o: nat, n: nat, swap: bool)
    requires CommandsOk(img, o, n, swap)
    ensures forall s :: s in SectionsFrom(img, o, n, swap) ==> s.Flags() in ReadsFrom(img, o, n, swap)
    decreases n
  {
    if n > 0 {
      FlagsAreRead(img, NextCommand(img, o, swap), n - 1, swap);
    }
  }

  /** What every traversal may rely on, for the whole image. */
  lemma WellFormedFacts(img: Image)
    requires WellFormed(img)
    ensures var h := HeaderOf(img).value; Ordered(Sections(img), HeaderSize(h.wide), |img|)
    ensures forall w, s :: w in Reads(img) && s in Sections(img) ==> Clear(w, s)
    ensures forall w :: w in Reads(img) ==> w + 4 <= |img|
    ensures forall s :: s in Sections(img) ==> s.at + s.Size() <= |img| && s.Flags() in Reads(img)
  {
    var h := HeaderOf(img).value;
    var o, n := HeaderSize(h.wide), Word(img, NCMDS, h.swap);
    SectionsOrdered(img, o, n, h.swap);
    FlagsAreRead(img, o, n, h.swap);
    forall w | w in Reads(img)
      ensures w + 4 <= |img|
    {
      if w in ReadsFrom(img, o, n, h.swap) {
        ReadsWithin(img, o, n, h.swap, w);
      }
    }
    forall w, s | w in Reads(img) && s in Sections(img)
      ensures Clear(w, s)
    {
      SectionWithin(Sections(img), o, |img|, s);
      if w in ReadsFrom(img, o, n, h.swap) {
        ReadsClear(img, o, n, h.swap, w, s);
      }
    }
    forall s | s in Sections(img)
      ensures s.at + s.Size() <= |img|
    {
      SectionWithin(Sections(img), o, |img|, s);
    }
  }

  /** A name field as text: its bytes up to the first NUL. */
  function Text(field: seq<Byte>): seq<Byte> {
    if field == [] || field[0] == 0 then [] else [field[0]] + Text(field[1..])
  }

  /** The part of a C string that a bounded copy or comparison of a name field looks at. */
  function Clip(name: seq<Byte>): (r: seq<Byte>)
    ensures |r| <= NAME
  {
    if |name| <= NAME then name else name[..NAME]
  }

  /** strncmp(field, name, 16) == 0 for the field at offset at. */
  predicate Carries(img: Image, at: nat, name: seq<Byte>)
    requires at + NAME <= |img|
  {
    Text(img[at..at + NAME]) == Clip(name)
  }
}
