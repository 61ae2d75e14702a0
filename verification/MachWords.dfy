/** Load commands, sections and names in terms of the words and bytes of the image. */
module MachWords {
  import opened Base
  import opened MachO
  import opened SetSegname
  import opened SetSegnameLaws
  import opened MachHeader
  import opened MachLookup

  /** The 32-bit word at an offset, 0 outside the image. */
  function W(img: Image, at: nat, swap: bool): nat {
    if at + 4 <= |img| then Word(img, at, swap) else 0
  }

  /** A magic number is accepted in either byte order: 0xfeedface with a 28-byte header, 0xfeedfacf with a 32-byte
      one. */
  lemma HeaderIff(img: Image, swap: bool, wide: bool)
    requires |img| >= 4
    ensures HeaderOf(img) == Some(Header(swap, wide)) <==> W(img, 0, swap) == if wide then 0xfeedfacf else 0xfeedface
  {
    var b0, b1, b2, b3 := img[0] as int, img[1] as int, img[2] as int, img[3] as int;
    Digits(b0, b1, b2, b3);
    Digits(b3, b2, b1, b0);
  }

  /** A word determines its bytes. */
  lemma Digits(b0: int, b1: int, b2: int, b3: int)
    requires 0 <= b0 < 256 && 0 <= b1 < 256 && 0 <= b2 < 256 && 0 <= b3 < 256
    ensures var w := b0 + b1 * 0x100 + b2 * 0x1_0000 + b3 * 0x100_0000;
      && (w == 0xfeedface <==> b3 == 0xfe && b2 == 0xed && b1 == 0xfa && b0 == 0xce)
      && (w == 0xfeedfacf <==> b3 == 0xfe && b2 == 0xed && b1 == 0xfa && b0 == 0xcf)
      && (w == 0xcefaedfe <==> b3 == 0xce && b2 == 0xfa && b1 == 0xed && b0 == 0xfe)
      && (w == 0xcffaedfe <==> b3 == 0xcf && b2 == 0xfa && b1 == 0xed && b0 == 0xfe)
  {
  }

  // ---- load commands and sections

  /** Offset of load command i of a row that begins at o: the second word of each one is its size. */
  function Chain(img: Image, o: nat, i: nat, swap: bool): nat
    decreases i
  {
    if i == 0 then o else Chain(img, o + W(img, o + 4, swap), i - 1, swap)
  }

  /** Item j of a row of items of the given size, the first of which lies `first` behind o. */
  function Item(o: nat, first: nat, size: nat, j: nat): nat {
    o + first + size * j
  }

  /** s is one of k section headers in a row: of 80 bytes each, the first one 72 behind o, or of 68 bytes, 56 behind. */
  ghost predicate InRow(o: nat, k: nat, wide: bool, s: Section) {
    if wide then exists j: nat :: j < k && s == Section(o, Item(o, 72, 80, j), true)
    else exists j: nat :: j < k && s == Section(o, Item(o, 56, 68, j), false)
  }

  /** s is a section of the segment command at o, an LC_SEGMENT or an LC_SEGMENT_64. */
  ghost predicate SectionOf(img: Image, o: nat, swap: bool, s: Section) {
    || (W(img, o, swap) == 1 && InRow(o, W(img, o + 48, swap), false, s))
    || (W(img, o, swap) == 0x19 && InRow(o, W(img, o + 64, swap), true, s))
  }

  lemma {:induction false} ConsecutiveAre(o: nat, k: nat, wide: bool, s: Section)
    ensures s in Consecutive(o, o + SegmentSize(wide), k, wide) <==> InRow(o, k, wide, s)
  {
    var secs := Consecutive(o, o + SegmentSize(wide), k, wide);
    if k > 0 {
      ConsecutiveAt(o, o + SegmentSize(wide), k, wide, 0);
    }
    if s in secs {
      var j: nat :| j < |secs| && secs[j] == s;
      ConsecutiveAt(o, o + SegmentSize(wide), k, wide, j);
      assert s.at == if wide then Item(o, 72, 80, j) else Item(o, 56, 68, j);
    }
    if InRow(o, k, wide, s) {
      var j: nat :| j < k && s.at == if wide then Item(o, 72, 80, j) else Item(o, 56, 68, j);
      ConsecutiveAt(o, o + SegmentSize(wide), k, wide, j);
    }
  }

  lemma {:induction false} CommandSectionsAre(img: Image, o: nat, swap: bool, s: Section)
    requires CommandOk(img, o, swap)
    ensures s in CommandSections(img, o, swap) <==> SectionOf(img, o, swap, s)
  {
    assert W(img, o, swap) == Word(img, o, swap);
    if W(img, o, swap) == 1 {
      ConsecutiveAre(o, W(img, o + 48, swap), false, s);
    } else if W(img, o, swap) == 0x19 {
      ConsecutiveAre(o, W(img, o + 64, swap), true, s);
    }
  }

  /** s is a section of one of n load commands in a chain that begins at o. */
  ghost predicate InChain(img: Image, o: nat, n: nat, swap: bool, s: Section) {
    exists i: nat :: i < n && SectionOf(img, Chain(img, o, i, swap), swap, s)
  }

  /** c is the offset of one of n load commands in a chain that begins at o. */
  ghost predicate IsLink(img: Image, o: nat, n: nat, c: nat) {
    exists i: nat :: i < n && c == Chain(img, o, i, false)
  }

  lemma {:induction false} InChainNext(img: Image, o: nat, next: nat, n: nat, m: nat, swap: bool, s: Section)
    requires n == m + 1 && next == o + W(img, o + 4, swap)
    ensures InChain(img, o, n, swap, s) <==> SectionOf(img, o, swap, s) || InChain(img, next, m, swap, s)
  {
    assert Chain(img, o, 0, swap) == o;
    if InChain(img, next, m, swap, s) {
      var i: nat :| i < m && SectionOf(img, Chain(img, next, i, swap), swap, s);
      assert Chain(img, o, i + 1, swap) == Chain(img, next, i, swap);
    }
    if i: nat :| 0 < i < n && SectionOf(img, Chain(img, o, i, swap), swap, s) {
      assert Chain(img, o, i, swap) == Chain(img, next, i - 1, swap);
    }
  }

  lemma {:induction false} SectionsFromAre(img: Image, o: nat, n: nat, swap: bool, s: Section)
    requires CommandsOk(img, o, n, swap)
    ensures s in SectionsFrom(img, o, n, swap) <==> InChain(img, o, n, swap, s)
    decreases n
  {
    if n > 0 {
      var next := NextCommand(img, o, swap);
      CommandSectionsAre(img, o, swap, s);
      SectionsFromAre(img, next, n - 1, swap, s);
      InChainNext(img, o, next, n, n - 1, swap, s);
    }
  }

  /** s is a section of one of the load commands the header counts. */
  ghost predicate IsSection(img: Image, swap: bool, wide: bool, s: Section) {
    InChain(img, if wide then 32 else 28, W(img, 16, swap), swap, s)
  }

  /** The sections renamed and searched are those of all segment commands of either width, in the chain of commands. */
  lemma {:induction false} SectionsIff(img: Image, swap: bool, wide: bool, s: Section)
    requires WellFormed(img) && HeaderOf(img) == Some(Header(swap, wide))
    ensures s in Sections(img) <==> IsSection(img, swap, wide, s)
  {
    SectionsFromAre(img, HeaderSize(wide), Word(img, NCMDS, swap), swap, s);
  }

  lemma {:induction false} LinkNext(img: Image, o: nat, next: nat, n: nat, m: nat, c: nat)
    requires n == m + 1 && next == o + W(img, o + 4, false)
    ensures IsLink(img, o, n, c) <==> c == o || IsLink(img, next, m, c)
  {
    assert Chain(img, o, 0, false) == o;
    if IsLink(img, next, m, c) {
      var i: nat :| i < m && c == Chain(img, next, i, false);
      assert Chain(img, o, i + 1, false) == c;
    }
    if i: nat :| 0 < i < n && c == Chain(img, o, i, false) {
      assert Chain(img, next, i - 1, false) == c;
    }
  }

  /** Offsets of the load commands: exactly the chain. */
  lemma {:induction false} CommandsAre(img: Image, o: nat, n: nat, c: nat)
    requires CommandsOk(img, o, n, false)
    ensures c in Commands(img, o, n) <==> IsLink(img, o, n, c)
    decreases n
  {
    if n > 0 {
      var next := NextCommand(img, o, false);
      CommandsAre(img, next, n - 1, c);
      LinkNext(img, o, next, n, n - 1, c);
    }
  }

  lemma {:induction false} SegmentsAre(img: Image, o: nat, n: nat, wide: bool, c: nat)
    requires CommandsOk(img, o, n, false)
    ensures c in Segments(img, o, n, wide)
       <==> c in Commands(img, o, n) && W(img, c, false) == if wide then 0x19 else 1
    decreases n
  {
    if n > 0 {
      var next := NextCommand(img, o, false);
      SegmentsAre(img, next, n - 1, wide, c);
      CommandsFrom(img, next, n - 1);
      assert W(img, o, false) == Word(img, o, false);
    }
  }

  /** The segments walked are the load commands of the kernel's width, each once, in increasing order. */
  lemma KernelSegmentsIff(img: Image, wide: bool, c: nat)
    requires KernelHeader(img, wide)
    ensures c in KernelSegments(img, wide)
       <==> W(img, c, false) == (if wide then 0x19 else 1)
            && IsLink(img, if wide then 32 else 28, W(img, 16, false), c)
    ensures Increasing(KernelSegments(img, wide))
  {
    SegmentsAre(img, HeaderSize(wide), Word(img, NCMDS, false), wide, c);
    CommandsAre(img, HeaderSize(wide), Word(img, NCMDS, false), c);
    SegmentsIncrease(img, HeaderSize(wide), Word(img, NCMDS, false), wide);
  }

  // ---- what renaming writes

  /** Bit 25 of the flags word, which lies behind the other words of a section header. */
  predicate Debug(img: Image, swap: bool, s: Section) {
    W(img, s.at + (if s.wide then 64 else 56), swap) / 0x0200_0000 % 2 == 1
  }

  lemma PadMeans(name: seq<Byte>, k: nat)
    requires k < NAME
    ensures Pad(name)[k] == if k < |name| then name[k] else 0
  {
  }

  /** Byte k of the segname of a section of the image: that of the new name, or 0 behind its end; the old one if the
      section has the debug attribute. */
  lemma {:induction false} SegnameByte(img: Image, out: Image, swap: bool, wide: bool, name: seq<Byte>, s: Section,
      k: nat)
    requires WellFormed(img) && HeaderOf(img) == Some(Header(swap, wide)) && Rewritten(img, out, name)
    requires IsSection(img, swap, wide, s) && k < 16
    ensures s.at + 16 + k < |img| == |out|
    ensures out[s.at + 16 + k]
         == if Debug(img, swap, s) then img[s.at + 16 + k] else if k < |name| then name[k] else 0
  {
    SectionsIff(img, swap, wide, s);
    WellFormedFacts(img);
    DebugIff(img, swap, s);
    FieldsApart(img, s, s.at + 16 + k);
    NameByte(img, out, Sections(img), swap, name, s, k);
  }

  lemma DebugIff(img: Image, swap: bool, s: Section)
    requires s.at + s.Size() <= |img|
    ensures Debug(img, swap, s) <==> IsDebug(img, s, swap)
  {
  }

  lemma {:induction false} NameByte(img: Image, out: Image, secs: seq<Section>, swap: bool, name: seq<Byte>, s: Section,
      k: nat)
    requires Within(img, secs) && Renamed(img, out, secs, swap, name) && s in secs && k < NAME
    requires forall t :: t in secs && InField(t, s.at + 16 + k) ==> t == s
    ensures s.at + 16 + k < |img| == |out|
    ensures out[s.at + 16 + k]
         == if IsDebug(img, s, swap) then img[s.at + 16 + k] else if k < |name| then name[k] else 0
  {
    assert |out| == |img| && s.Field() == s.at + 16 && s.Field() + NAME <= |out|;
    if IsDebug(img, s, swap) {
      DebugByte(img, out, secs, swap, name, s, s.at + 16 + k);
    } else {
      NewByte(out, s, name, k);
    }
  }

  lemma {:induction false} NewByte(out: Image, s: Section, name: seq<Byte>, k: nat)
    requires s.Field() + NAME <= |out| && out[s.Field()..s.Field() + NAME] == Pad(name) && k < NAME
    ensures out[s.at + 16 + k] == if k < |name| then name[k] else 0
  {
    ByteOfField(out, s, name, s.at + 16 + k);
    PadMeans(name, k);
  }

  lemma {:induction false} DebugByte(img: Image, out: Image, secs: seq<Section>, swap: bool, name: seq<Byte>,
      s: Section, b: nat)
    requires Within(img, secs) && Renamed(img, out, secs, swap, name) && b < |img|
    requires s.at + s.Size() <= |img| && IsDebug(img, s, swap)
    requires forall t :: t in secs && InField(t, b) ==> t == s
    ensures |out| == |img| && out[b] == img[b]
  {
    assert !Written(img, secs, swap, b);
  }

  /** Every byte that is not part of the segname of a section without the debug attribute is kept. */
  lemma {:induction false} OtherByte(img: Image, out: Image, swap: bool, wide: bool, name: seq<Byte>, b: nat)
    requires WellFormed(img) && HeaderOf(img) == Some(Header(swap, wide)) && Rewritten(img, out, name)
    requires b < |img|
    requires forall s :: IsSection(img, swap, wide, s) && !Debug(img, swap, s) ==> !(s.at + 16 <= b < s.at + 32)
    ensures |out| == |img| && out[b] == img[b]
  {
    WellFormedFacts(img);
    forall s | s in Sections(img) && InField(s, b)
      ensures IsDebug(img, s, swap)
    {
      SectionsIff(img, swap, wide, s);
      DebugIff(img, swap, s);
    }
    KeptByte(img, out, Sections(img), swap, name, b);
  }

  lemma {:induction false} KeptByte(img: Image, out: Image, secs: seq<Section>, swap: bool, name: seq<Byte>, b: nat)
    requires Within(img, secs) && Renamed(img, out, secs, swap, name) && b < |img|
    requires forall s :: s in secs && InField(s, b) ==> IsDebug(img, s, swap)
    ensures |out| == |img| && out[b] == img[b]
  {
    assert !Written(img, secs, swap, b);
  }

  // ---- what lookup compares

  /** The first k characters of the field are not NUL. */
  predicate Running(img: Image, at: nat, k: nat) {
    forall i :: 0 <= i < k ==> Get(img, at, i) != 0
  }

  /** strncmp over 16 characters finds no difference: up to and including the first NUL of the field, or up to its end,
      the characters are those of the name, which ends with a NUL of its own. */
  predicate SameName(img: Image, at: nat, name: seq<Byte>) {
    forall k :: 0 <= k < 16 && Running(img, at, k) ==> Get(img, at, k) == Char(name, k)
  }

  /** Character k of the field at `at`. */
  function Get(img: Image, at: nat, k: nat): nat {
    if at + k < |img| then img[at + k] else 0
  }

  function Char(name: seq<Byte>, k: nat): nat {
    if k < |name| then name[k] else 0
  }

  lemma {:induction false} CarriesIff(img: Image, at: nat, name: seq<Byte>)
    requires at + NAME <= |img| && 0 !in name
    ensures Carries(img, at, name) <==> SameName(img, at, name)
  {
    var field := img[at..at + NAME];
    assert forall k :: 0 <= k < NAME ==> Get(img, at, k) == field[k];
    TextMeans(field);
    if Carries(img, at, name) {
      forall k | 0 <= k < 16 && Running(img, at, k)
        ensures Get(img, at, k) == Char(name, k)
      {
        CarriedChar(img, at, name, field, k);
      }
    }
    if SameName(img, at, name) {
      SameNameText(img, at, name, field);
    }
  }

  lemma {:induction false} CarriedChar(img: Image, at: nat, name: seq<Byte>, field: seq<Byte>, k: nat)
    requires |field| == NAME && Text(field) == Clip(name) && k < NAME && Running(img, at, k)
    requires forall i :: 0 <= i < NAME ==> Get(img, at, i) == field[i]
    ensures Get(img, at, k) == Char(name, k)
  {
    TextMeans(field);
    var t := Text(field);
    assert |t| < NAME ==> Get(img, at, |t|) == 0;
    if k < |t| {
      assert t[k] == field[k] && t[k] == Clip(name)[k];
    }
  }

  /** The text of a field: its characters before the first NUL. */
  lemma {:induction false} TextMeans(field: seq<Byte>)
    ensures |Text(field)| <= |field| && Text(field) == field[..|Text(field)|]
    ensures forall k :: 0 <= k < |Text(field)| ==> field[k] != 0
    ensures |Text(field)| < |field| ==> field[|Text(field)|] == 0
  {
    if field != [] && field[0] != 0 {
      TextMeans(field[1..]);
      var rest := Text(field[1..]);
      forall k | 0 <= k < |Text(field)|
        ensures field[k] == Text(field)[k] && field[k] != 0
      {
        if k > 0 { assert field[1..][k - 1] == rest[k - 1]; }
      }
    }
  }

  lemma {:induction false} SameNameText(img: Image, at: nat, name: seq<Byte>, field: seq<Byte>)
    requires |field| == NAME && 0 !in name && SameName(img, at, name)
    requires forall i :: 0 <= i < NAME ==> Get(img, at, i) == field[i]
    ensures Text(field) == Clip(name)
  {
    TextMeans(field);
    var t := Text(field);
    forall k | 0 <= k < |t|
      ensures k < |name| && t[k] == name[k]
    {
      assert t[k] == field[k];
      assert Running(img, at, k);
      assert Get(img, at, k) == Char(name, k);
    }
    assert |t| > 0 ==> t[|t| - 1] in t && |t| - 1 < |name|;
    if |t| < NAME {
      assert Running(img, at, |t|);
      assert Get(img, at, |t|) == Char(name, |t|);
      assert forall i :: 0 <= i < |name| ==> name[i] in name;
      assert |name| == |t|;
    }
    assert |Clip(name)| == |t|;
  }

  /** What a lookup is after: a section of the header's width that carries both names, and that lies in a segment
      of that name, unless the file is an object file. */
  lemma {:induction false} WantedIff(img: Image, s: Section, wide: bool, segname: seq<Byte>, sectname: seq<Byte>)
    requires NCMDS <= |img| && Announced(img, s) && 0 !in segname && 0 !in sectname
    ensures Wanted(img, s, wide, segname, sectname) == Sought(img, s, wide, segname, sectname)
  {
    assert s.segment + 24 <= |img|;
    var named, searched := Named(img, s, segname, sectname), Searched(img, s.segment, segname);
    WantedMeans(img, s, wide, segname, sectname);
    NamedIff(img, s, segname, sectname);
    SearchedIff(img, s.segment, segname);
    SoughtMeans(img, s, wide, segname, sectname, named, searched);
  }

  lemma {:induction false} SoughtMeans(img: Image, s: Section, wide: bool, segname: seq<Byte>, sectname: seq<Byte>,
      named: bool, searched: bool)
    requires named == (SameName(img, s.at, sectname) && SameName(img, s.at + 16, segname))
    requires searched == (W(img, 12, false) == 1 || SameName(img, s.segment + 8, segname))
    ensures Sought(img, s, wide, segname, sectname) == (s.wide == wide && searched && named)
  {
  }

  lemma {:induction false} WantedMeans(img: Image, s: Section, wide: bool, segname: seq<Byte>, sectname: seq<Byte>)
    requires NCMDS <= |img| && Announced(img, s)
    ensures Wanted(img, s, wide, segname, sectname)
         == (s.wide == wide && Searched(img, s.segment, segname) && Named(img, s, segname, sectname))
  {
  }

  lemma {:induction false} NamedIff(img: Image, s: Section, segname: seq<Byte>, sectname: seq<Byte>)
    requires s.at + s.Size() <= |img| && 0 !in segname && 0 !in sectname
    ensures Named(img, s, segname, sectname) == (SameName(img, s.at, sectname) && SameName(img, s.at + 16, segname))
  {
    CarriesIff(img, s.at, sectname);
    CarriesIff(img, s.at + 16, segname);
  }

  lemma {:induction false} SearchedIff(img: Image, segment: nat, segname: seq<Byte>)
    requires NCMDS <= |img| && segment + 24 <= |img| && 0 !in segname
    ensures Searched(img, segment, segname) == (W(img, 12, false) == 1 || SameName(img, segment + 8, segname))
  {
    CarriesIff(img, segment + 8, segname);
  }

  /** The section is named like that, and outside object files its segment is named like that, too. */
  predicate Sought(img: Image, s: Section, wide: bool, segname: seq<Byte>, sectname: seq<Byte>) {
    && s.wide == wide && SameName(img, s.at, sectname) && SameName(img, s.at + 16, segname)
    && (W(img, 12, false) == 1 || SameName(img, s.segment + 8, segname))
  }

  /** What a lookup finds is sought, and no earlier section is; it finds nothing only if no section is sought. */
  lemma FoundIff(img: Image, wide: bool, segname: seq<Byte>, sectname: seq<Byte>)
    requires KernelHeader(img, wide) && 0 !in segname && 0 !in sectname
    ensures var secs := KernelSections(img, wide);
      var found := First(secs, WantedAmong(img, secs, wide, segname, sectname));
      if found.None? then forall s :: s in secs ==> !Sought(img, s, wide, segname, sectname)
      else exists i ::
        0 <= i < |secs| && secs[i].at == found.value && FirstSought(img, secs, i, wide, segname, sectname)
  {
    var secs := KernelSections(img, wide);
    var chosen := WantedAmong(img, secs, wide, segname, sectname);
    forall s | s in secs
      ensures s in chosen <==> Sought(img, s, wide, segname, sectname)
    {
      SectionsAnnounced(img, HeaderSize(wide), Word(img, NCMDS, false), false, s);
      WantedIff(img, s, wide, segname, sectname);
    }
    FirstMeans(secs, chosen);
    var found := First(secs, chosen);
    if found.Some? {
      var i :| 0 <= i < |secs| && secs[i].at == found.value && secs[i] in chosen
        && forall j :: 0 <= j < i ==> secs[j] !in chosen;
      assert FirstSought(img, secs, i, wide, segname, sectname);
    }
  }

  predicate FirstSought(img: Image, secs: seq<Section>, i: nat, wide: bool, segname: seq<Byte>, sectname: seq<Byte>)
    requires i < |secs|
  {
    Sought(img, secs[i], wide, segname, sectname)
    && forall j :: 0 <= j < i ==> !Sought(img, secs[j], wide, segname, sectname)
  }
}
