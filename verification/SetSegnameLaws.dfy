/** What the in-place renaming of segment names means for the image it leaves behind. */
module SetSegnameLaws {
  import opened Base
  import opened MachO
  import opened SetSegname

  /** out is what SetSegname leaves of img. */
  predicate Rewritten(img: Image, out: Image, name: seq<Byte>)
    requires WellFormed(img)
  {
    WellFormedFacts(img);
    Renamed(img, out, Sections(img), HeaderOf(img).value.swap, name)
  }

  /** A stretch of bytes that meets no segname field is kept. */
  lemma StretchKept(img: Image, out: Image, name: seq<Byte>, lo: nat, hi: nat)
    requires WellFormed(img) && Rewritten(img, out, name) && lo <= hi <= |img|
    requires forall s :: s in Sections(img) ==> hi <= s.Field() || s.Field() + NAME <= lo
    ensures |out| == |img| && out[lo..hi] == img[lo..hi]
  {
    WellFormedFacts(img);
    forall b | lo <= b < hi
      ensures out[b] == img[b]
    {
      assert !Written(img, Sections(img), HeaderOf(img).value.swap, b);
    }
  }

  lemma WordOfStretch(a: Image, b: Image, w: nat, swap: bool)
    requires w + 4 <= |a| == |b| && a[w..w + 4] == b[w..w + 4]
    ensures Word(a, w, swap) == Word(b, w, swap)
  {
    assert a[w..w + 4][0] == b[w..w + 4][0] && a[w..w + 4][1] == b[w..w + 4][1];
    assert a[w..w + 4][2] == b[w..w + 4][2] && a[w..w + 4][3] == b[w..w + 4][3];
  }

  lemma ReadKept(img: Image, out: Image, name: seq<Byte>, w: nat, swap: bool)
    requires WellFormed(img) && Rewritten(img, out, name) && w in Reads(img)
    ensures w + 4 <= |img| == |out| && Word(out, w, swap) == Word(img, w, swap)
  {
    WellFormedFacts(img);
    forall s | s in Sections(img)
      ensures Clear(w, s)
    {
    }
    StretchKept(img, out, name, w, w + 4);
    WordOfStretch(img, out, w, swap);
  }

  /** Images with the same header kind that agree on all words read have the same sections. */
  lemma SameSections(a: Image, b: Image, turn: bool)
    requires WellFormed(a) && |b| == |a|
    requires var h := HeaderOf(a).value;
      HeaderOf(b) == Some(Header(h.swap != turn, h.wide)) && SameWords(a, b, Reads(a), h.swap, turn)
    ensures WellFormed(b) && Sections(b) == Sections(a) && Reads(b) == Reads(a)
  {
    var h := HeaderOf(a).value;
    SameTraversal(a, b, HeaderSize(h.wide), Word(a, NCMDS, h.swap), h.swap, turn);
  }

  /** The traversal is unaffected by its own writes: it would meet the same sections and decide the same. */
  lemma TraversalUnaffected(img: Image, out: Image, name: seq<Byte>)
    requires WellFormed(img) && Rewritten(img, out, name)
    ensures WellFormed(out) && HeaderOf(out) == HeaderOf(img) && Sections(out) == Sections(img)
    ensures forall s :: s in Sections(img) ==>
      && s.at + s.Size() <= |img| == |out|
      && (IsDebug(out, s, HeaderOf(img).value.swap) <==> IsDebug(img, s, HeaderOf(img).value.swap))
  {
    ReadsKept(img, out, name);
    SameSections(img, out, false);
    forall s | s in Sections(img)
      ensures s.at + s.Size() <= |img| == |out|
      ensures IsDebug(out, s, HeaderOf(img).value.swap) <==> IsDebug(img, s, HeaderOf(img).value.swap)
    {
      DebugKept(img, out, name, s);
    }
  }

  /** All words a traversal reads are kept. */
  lemma ReadsKept(img: Image, out: Image, name: seq<Byte>)
    requires WellFormed(img) && Rewritten(img, out, name)
    ensures |out| == |img| && HeaderOf(out) == HeaderOf(img)
    ensures SameWords(img, out, Reads(img), HeaderOf(img).value.swap, false)
  {
    HeaderKept(img, out, name);
    forall w | w in Reads(img)
      ensures w + 4 <= |img| && Word(out, w, HeaderOf(img).value.swap) == Word(img, w, HeaderOf(img).value.swap)
    {
      ReadKept(img, out, name, w, HeaderOf(img).value.swap);
    }
  }

  lemma HeaderKept(img: Image, out: Image, name: seq<Byte>)
    requires WellFormed(img) && Rewritten(img, out, name)
    ensures |out| == |img| && HeaderOf(out) == HeaderOf(img)
  {
    ReadKept(img, out, name, 0, false);
  }

  lemma DebugKept(img: Image, out: Image, name: seq<Byte>, s: Section)
    requires WellFormed(img) && Rewritten(img, out, name) && s in Sections(img)
    ensures s.at + s.Size() <= |img| == |out|
    ensures IsDebug(out, s, HeaderOf(img).value.swap) <==> IsDebug(img, s, HeaderOf(img).value.swap)
  {
    WellFormedFacts(img);
    ReadKept(img, out, name, s.Flags(), HeaderOf(img).value.swap);
  }

  /** The contract of SetSegname leaves no freedom. */
  lemma RewrittenUnique(img: Image, out: Image, out': Image, name: seq<Byte>)
    requires WellFormed(img) && Rewritten(img, out, name) && Rewritten(img, out', name)
    ensures out == out'
  {
    WellFormedFacts(img);
    forall b | 0 <= b < |img|
      ensures out[b] == out'[b]
    {
      RewrittenByte(img, out, out', name, b);
    }
  }

  lemma RewrittenByte(img: Image, out: Image, out': Image, name: seq<Byte>, b: nat)
    requires WellFormed(img) && Rewritten(img, out, name) && Rewritten(img, out', name) && b < |img|
    ensures |out| == |out'| == |img| && out[b] == out'[b]
  {
    WellFormedFacts(img);
    var swap := HeaderOf(img).value.swap;
    if Written(img, Sections(img), swap, b) {
      var s :| s in Sections(img) && !IsDebug(img, s, swap) && InField(s, b);
      ByteOfField(out, s, name, b);
      ByteOfField(out', s, name, b);
    }
  }

  lemma ByteOfField(out: Image, s: Section, name: seq<Byte>, b: nat)
    requires s.Field() + NAME <= |out| && out[s.Field()..s.Field() + NAME] == Pad(name) && InField(s, b)
    ensures out[b] == Pad(name)[b - s.Field()]
  {
    assert out[b] == out[s.Field()..s.Field() + NAME][b - s.Field()];
  }

  /** Of two renamings in a row, the last one wins. */
  lemma LastNameWins(img: Image, mid: Image, out: Image, first: seq<Byte>, second: seq<Byte>)
    requires WellFormed(img) && Rewritten(img, mid, first)
    requires WellFormed(mid) && Rewritten(mid, out, second)
    ensures Rewritten(img, out, second)
  {
    WellFormedFacts(img);
    TraversalUnaffected(img, mid, first);
    var swap, secs := HeaderOf(img).value.swap, Sections(img);
    forall b | 0 <= b < |img| && !Written(img, secs, swap, b)
      ensures out[b] == img[b]
    {
      assert !Written(mid, secs, swap, b);
    }
  }

  /** Renaming twice to the same name is renaming once. */
  lemma Idempotent(img: Image, out: Image, again: Image, name: seq<Byte>)
    requires WellFormed(img) && Rewritten(img, out, name)
    requires WellFormed(out) && Rewritten(out, again, name)
    ensures again == out
  {
    LastNameWins(img, out, again, name, name);
    RewrittenUnique(img, out, again, name);
  }

  /** p exchanges the bytes of the image so that every word read is reversed and every segname field is kept;
      all other bytes may go anywhere outside these. */
  ghost predicate ByteSwap(img: Image, p: seq<nat>)
    requires WellFormed(img)
  {
    WellFormedFacts(img);
    && |p| == |img|
    && (forall i :: 0 <= i < |p| ==> p[i] < |p| && p[p[i]] == i)
    && (forall w :: w in Reads(img) ==> p[w] == w + 3 && p[w + 1] == w + 2 && p[w + 2] == w + 1 && p[w + 3] == w)
    && (forall s, i: nat :: s in Sections(img) && i < |p| && InField(s, i) ==> p[i] == i)
  }

  function Permuted(img: Image, p: seq<nat>): (r: Image)
    requires |p| == |img| && forall i :: 0 <= i < |p| ==> p[i] < |p|
    ensures |r| == |img|
  {
    seq(|img|, i requires 0 <= i < |img| => img[p[i]])
  }

  lemma WordTurned(img: Image, p: seq<nat>, w: nat, swap: bool)
    requires WellFormed(img) && ByteSwap(img, p) && w in Reads(img)
    ensures w + 4 <= |img| && Word(Permuted(img, p), w, !swap) == Word(img, w, swap)
  {
    WellFormedFacts(img);
  }

  lemma DigitsUnique(a0: Byte, a1: Byte, a2: Byte, a3: Byte, b0: Byte, b1: Byte, b2: Byte, b3: Byte)
    requires a0 + 0x100 * (a1 + 0x100 * (a2 + 0x100 * a3)) == b0 + 0x100 * (b1 + 0x100 * (b2 + 0x100 * b3))
    ensures a0 == b0 && a1 == b1 && a2 == b2 && a3 == b3
  {
  }

  lemma MagicBytes(img: Image, c0: Byte, c1: Byte, c2: Byte, c3: Byte)
    requires |img| >= 4 && Word(img, 0, false) == c0 + 0x100 * (c1 + 0x100 * (c2 + 0x100 * c3))
    ensures Word(img, 0, true) == c3 + 0x100 * (c2 + 0x100 * (c1 + 0x100 * c0))
  {
    DigitsUnique(img[0], img[1], img[2], img[3], c0, c1, c2, c3);
  }

  lemma HeaderTurned(a: Image, b: Image)
    requires |a| == |b| >= 4 && HeaderOf(a).Some? && Word(b, 0, false) == Word(a, 0, true)
    ensures HeaderOf(b) == Some(Header(!HeaderOf(a).value.swap, HeaderOf(a).value.wide))
  {
    var magic := Word(a, 0, false);
    if magic == MH_MAGIC {
      MagicBytes(a, 0xce, 0xfa, 0xed, 0xfe);
    } else if magic == MH_CIGAM {
      MagicBytes(a, 0xfe, 0xed, 0xfa, 0xce);
    } else if magic == MH_MAGIC_64 {
      MagicBytes(a, 0xcf, 0xfa, 0xed, 0xfe);
    } else {
      MagicBytes(a, 0xfe, 0xed, 0xfa, 0xcf);
    }
  }

  /** A byte-swapped image is traversed like the original. */
  lemma SwappedTraversal(img: Image, p: seq<nat>)
    requires WellFormed(img) && ByteSwap(img, p)
    ensures var b := Permuted(img, p);
      && WellFormed(b) && Sections(b) == Sections(img)
      && HeaderOf(b) == Some(Header(!HeaderOf(img).value.swap, HeaderOf(img).value.wide))
  {
    var b, swap := Permuted(img, p), HeaderOf(img).value.swap;
    WordTurned(img, p, 0, true);
    HeaderTurned(img, b);
    forall w | w in Reads(img)
      ensures w + 4 <= |img| && Word(b, w, swap != true) == Word(img, w, swap)
    {
      WordTurned(img, p, w, swap);
    }
    SameSections(img, b, true);
  }

  lemma SwappedDebug(img: Image, p: seq<nat>, s: Section)
    requires WellFormed(img) && ByteSwap(img, p) && s in Sections(img)
    ensures s.at + s.Size() <= |img|
    ensures IsDebug(Permuted(img, p), s, !HeaderOf(img).value.swap) <==> IsDebug(img, s, HeaderOf(img).value.swap)
  {
    WellFormedFacts(img);
    WordTurned(img, p, s.Flags(), HeaderOf(img).value.swap);
  }

  lemma InsideImage(img: Image, s: Section)
    requires WellFormed(img) && s in Sections(img)
    ensures s.at + s.Size() <= |img| && s.Field() + NAME <= |img|
  {
    WellFormedFacts(img);
  }

  lemma FieldsFixed(img: Image, out: Image, p: seq<nat>, s: Section)
    requires WellFormed(img) && ByteSwap(img, p) && s in Sections(img) && |out| == |img|
    ensures s.at + s.Size() <= |img|
    ensures Permuted(out, p)[s.Field()..s.Field() + NAME] == out[s.Field()..s.Field() + NAME]
  {
    InsideImage(img, s);
    forall i: nat | s.Field() <= i < s.Field() + NAME
      ensures p[i] == i
    {
      assert InField(s, i);
    }
    SliceFixed(out, p, s.Field(), s.Field() + NAME);
  }

  lemma SliceFixed(out: Image, p: seq<nat>, lo: nat, hi: nat)
    requires |p| == |out| && (forall i :: 0 <= i < |p| ==> p[i] < |p|) && lo <= hi <= |out|
    requires forall i: nat :: lo <= i < hi ==> p[i] == i
    ensures Permuted(out, p)[lo..hi] == out[lo..hi]
  {
  }

  /** A byte is written in the swapped image just where its origin is written in the image. */
  lemma SwappedWritten(img: Image, p: seq<nat>, i: nat)
    requires WellFormed(img) && ByteSwap(img, p) && i < |img| && Within(img, Sections(img))
    requires Written(img, Sections(img), HeaderOf(img).value.swap, p[i])
    ensures Written(Permuted(img, p), Sections(img), !HeaderOf(img).value.swap, i)
  {
    var swap := HeaderOf(img).value.swap;
    var s :| s in Sections(img) && !IsDebug(img, s, swap) && InField(s, p[i]);
    assert p[p[i]] == p[i] && p[p[i]] == i;
    SwappedDebug(img, p, s);
  }

  lemma SwappedRest(img: Image, out: Image, p: seq<nat>, name: seq<Byte>, i: nat)
    requires WellFormed(img) && ByteSwap(img, p) && Rewritten(img, out, name) && i < |img| && Within(img, Sections(img))
    requires !Written(Permuted(img, p), Sections(img), !HeaderOf(img).value.swap, i)
    ensures Permuted(out, p)[i] == Permuted(img, p)[i]
  {
    if Written(img, Sections(img), HeaderOf(img).value.swap, p[i]) {
      SwappedWritten(img, p, i);
    }
  }

  lemma SwappedName(img: Image, out: Image, p: seq<nat>, name: seq<Byte>, s: Section)
    requires WellFormed(img) && ByteSwap(img, p) && Rewritten(img, out, name) && s in Sections(img)
    requires s.at + s.Size() <= |img| && !IsDebug(Permuted(img, p), s, !HeaderOf(img).value.swap)
    ensures Permuted(out, p)[s.Field()..s.Field() + NAME] == Pad(name)
  {
    SwappedDebug(img, p, s);
    FieldsFixed(img, out, p, s);
  }

  lemma SwappedRenamed(img: Image, out: Image, p: seq<nat>, name: seq<Byte>)
    requires WellFormed(img) && ByteSwap(img, p) && Rewritten(img, out, name) && Within(img, Sections(img))
    ensures Renamed(Permuted(img, p), Permuted(out, p), Sections(img), !HeaderOf(img).value.swap, name)
  {
    var b, secs, swap := Permuted(img, p), Sections(img), HeaderOf(img).value.swap;
    forall s | s in secs && !IsDebug(b, s, !swap)
      ensures Permuted(out, p)[s.Field()..s.Field() + NAME] == Pad(name)
    {
      SwappedName(img, out, p, name, s);
    }
    forall i | 0 <= i < |img| && !Written(b, secs, !swap, i)
      ensures Permuted(out, p)[i] == b[i]
    {
      SwappedRest(img, out, p, name, i);
    }
  }

  /** Renaming commutes with byte-swapping the image. */
  lemma SwapCommutes(img: Image, out: Image, p: seq<nat>, name: seq<Byte>)
    requires WellFormed(img) && ByteSwap(img, p) && Rewritten(img, out, name)
    ensures WellFormed(Permuted(img, p)) && |out| == |p|
    ensures Rewritten(Permuted(img, p), Permuted(out, p), name)
  {
    SwappedTraversal(img, p);
    WellFormedFacts(img);
    SwappedRenamed(img, out, p, name);
  }

  lemma CommandReadsSpaced(img: Image, o: nat, swap: bool, v: nat, w: nat)
    requires CommandOk(img, o, swap) && v in CommandReads(img, o, swap) && w in CommandReads(img, o, swap) && v < w
    ensures v + 4 <= w
  {
    var secs := CommandSections(img, o, swap);
    var kind := KindAt(img, o, swap);
    if kind.Some? {
      var k := Word(img, o + CountOffset(kind.value), swap);
      ConsecutiveOrdered(o, o + SegmentSize(kind.value), k, kind.value);
      FlagsSpaced(secs, o, o + SegmentSize(kind.value),
                  o + SegmentSize(kind.value) + SectionsSize(k, kind.value), kind.value, v, w);
    }
  }

  lemma FlagsSpaced(secs: seq<Section>, o: nat, start: nat, end: nat, wide: bool, v: nat, w: nat)
    requires Ordered(secs, start, end) && start == o + SegmentSize(wide) && v < w
    requires v == o || v == o + 4 || v == o + CountOffset(wide) || exists t :: t in secs && v == t.Flags()
    requires w == o || w == o + 4 || w == o + CountOffset(wide) || exists t :: t in secs && w == t.Flags()
    ensures v + 4 <= w
  {
    if s :| s in secs && v == s.Flags() {
      var i :| 0 <= i < |secs| && secs[i] == s;
      if t :| t in secs && w == t.Flags() {
        var j :| 0 <= j < |secs| && secs[j] == t;
      }
    } else if t :| t in secs && w == t.Flags() {
      SectionWithin(secs, start, end, t);
    }
  }

  lemma {:induction false} ReadsSpaced(img: Image, o: nat, n: nat, swap: bool, v: nat, w: nat)
    requires CommandsOk(img, o, n, swap) && v in ReadsFrom(img, o, n, swap) && w in ReadsFrom(img, o, n, swap) && v < w
    ensures v + 4 <= w
    decreases n
  {
    if n > 0 {
      var next := NextCommand(img, o, swap);
      if v in CommandReads(img, o, swap) {
        CommandReadsWithin(img, o, swap, v);
        if w in CommandReads(img, o, swap) {
          CommandReadsSpaced(img, o, swap, v, w);
        } else {
          ReadsWithin(img, next, n - 1, swap, w);
        }
      } else {
        ReadsWithin(img, next, n - 1, swap, v);
        if w in CommandReads(img, o, swap) {
          CommandReadsWithin(img, o, swap, w);
        } else {
          ReadsSpaced(img, next, n - 1, swap, v, w);
        }
      }
    }
  }

  /** Where byte i goes when just the given words are reversed. */
  function Mirror(words: set<nat>, i: nat): nat {
    if i in words then i + 3
    else if i >= 1 && i - 1 in words then i + 1
    else if i >= 2 && i - 2 in words then i - 1
    else if i >= 3 && i - 3 in words then i - 3
    else i
  }

  predicate Spaced(words: set<nat>) {
    forall v, w :: v in words && w in words && v < w ==> v + 4 <= w
  }

  lemma MirrorTwice(words: set<nat>, i: nat)
    requires Spaced(words)
    ensures Mirror(words, Mirror(words, i)) == i
  {
  }

  /** Every well-formed image can be byte-swapped: the words read do not overlap one another. */
  lemma ByteSwapExists(img: Image) returns (p: seq<nat>)
    requires WellFormed(img)
    ensures ByteSwap(img, p)
  {
    WellFormedFacts(img);
    var h, words := HeaderOf(img).value, Reads(img);
    var o, n := HeaderSize(h.wide), Word(img, NCMDS, h.swap);
    forall v, w | v in words && w in words && v < w
      ensures v + 4 <= w
    {
      if w in ReadsFrom(img, o, n, h.swap) {
        ReadsWithin(img, o, n, h.swap, w);
        if v in ReadsFrom(img, o, n, h.swap) {
          ReadsSpaced(img, o, n, h.swap, v, w);
        }
      } else if v in ReadsFrom(img, o, n, h.swap) {
        ReadsWithin(img, o, n, h.swap, v);
      }
    }
    p := seq(|img|, i requires 0 <= i < |img| => Mirror(words, i));
    MirrorSwaps(img, words, p);
  }

  lemma MirrorSwaps(img: Image, words: set<nat>, p: seq<nat>)
    requires WellFormed(img) && words == Reads(img) && Spaced(words)
    requires |p| == |img| && forall i :: 0 <= i < |p| ==> p[i] == Mirror(words, i)
    ensures ByteSwap(img, p)
  {
    WellFormedFacts(img);
    forall i | 0 <= i < |p|
      ensures p[i] < |p| && p[p[i]] == i
    {
      MirrorInside(words, |p|, i);
      MirrorTwice(words, i);
    }
    forall s, i: nat | s in Sections(img) && i < |p| && InField(s, i)
      ensures p[i] == i
    {
      MirrorFixes(img, words, s, i);
    }
    forall w | w in words
      ensures p[w] == w + 3 && p[w + 1] == w + 2 && p[w + 2] == w + 1 && p[w + 3] == w
    {
      MirrorTurns(words, w);
    }
  }

  lemma MirrorInside(words: set<nat>, size: nat, i: nat)
    requires i < size && forall w :: w in words ==> w + 4 <= size
    ensures Mirror(words, i) < size
  {
  }

  lemma MirrorTurns(words: set<nat>, w: nat)
    requires Spaced(words) && w in words
    ensures Mirror(words, w) == w + 3 && Mirror(words, w + 1) == w + 2
    ensures Mirror(words, w + 2) == w + 1 && Mirror(words, w + 3) == w
  {
  }

  lemma MirrorFixes(img: Image, words: set<nat>, s: Section, i: nat)
    requires forall w :: w in words ==> Clear(w, s)
    requires InField(s, i)
    ensures Mirror(words, i) == i
  {
  }
}
