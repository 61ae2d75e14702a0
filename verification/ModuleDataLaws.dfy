/** Relocation of module data preserves what it means. */
module ModuleDataLaws {
  import opened Base
  import opened ModuleData

  /** Every pointer the fixup meets lands in the copy at its old offset, and null keys stay null. It meets the elements,
      those of arrays among them, and those of dictionaries in such arrays. */
  lemma {:induction false} PointersLand(b: Block, out: Block, abi: Abi, from: nat, to: nat, e: nat)
    requires WellFormed(b, abi, from) && Rebased(b, out, abi, from, to) && 0 < to && to + |b| < Limit(abi.ptr)
    requires Elem(e) in Places(b, abi, from)
    ensures ValuePtr(out, abi, e) - to == ValuePtr(b, abi, e) - from && Into(ValuePtr(out, abi, e), to, |out|)
    ensures ValuePtr(out, abi, e) == MovedAddress(ValuePtr(b, abi, e), from, to)
    ensures KeyPtr(out, abi, e) == 0 <==> KeyPtr(b, abi, e) == 0
    ensures KeyPtr(b, abi, e) != 0 ==>
      KeyPtr(out, abi, e) - to == KeyPtr(b, abi, e) - from && Into(KeyPtr(out, abi, e), to, |out|)
  {
    assert PlaceOk(b, abi, from, Elem(e));
    MovedInto(ValuePtr(b, abi, e), from, to, |b|, abi);
    if KeyPtr(b, abi, e) != 0 {
      MovedInto(KeyPtr(b, abi, e), from, to, |b|, abi);
    }
  }

  /** It meets nothing deeper: the elements of an array inside a dictionary, say, keep pointing into the original. */
  lemma {:induction false} UnmetPointersStay(b: Block, out: Block, abi: Abi, from: nat, to: nat, e: nat)
    requires Rebased(b, out, abi, from, to) && abi.ptr <= e && e + abi.Element() <= |b|
    requires forall i :: e + abi.key <= i < e + abi.Element() ==> !Touched(Places(b, abi, from), abi, i)
    ensures KeyPtr(out, abi, e) == KeyPtr(b, abi, e) && ValuePtr(out, abi, e) == ValuePtr(b, abi, e)
  {
    LoadSame(out, b, e + abi.key, abi.ptr);
    LoadSame(out, b, e + abi.Value(), abi.ptr);
  }

  /** What a traversal reads at a place is the same in both blocks. */
  predicate SameAt(b: Block, out: Block, abi: Abi, from: nat, to: nat, p: Place) {
    if p.Elem? then
      Type(out, abi, p.at) == Type(b, abi, p.at) && ValueOffset(out, abi, to, p.at) == ValueOffset(b, abi, from, p.at)
    else ListCount(out, abi, p.at) == ListCount(b, abi, p.at) && ListType(out, abi, p.at) == ListType(b, abi, p.at)
  }

  lemma {:induction false} SamePlace(b: Block, out: Block, abi: Abi, from: nat, to: nat, p: Place)
    requires WellFormed(b, abi, from) && Rebased(b, out, abi, from, to) && 0 < to && to + |b| < Limit(abi.ptr)
    requires p in Places(b, abi, from)
    ensures SameAt(b, out, abi, from, to, p)
  {
    if p.Elem? {
      PointersLand(b, out, abi, from, to, p.at);
      assert PlaceOk(b, abi, from, p);
      WordKept(b, out, abi, from, to, p.at, abi.ValueType());
    } else {
      ListKept(b, out, abi, from, to, p.at);
    }
  }

  /** key_size, value_size and value_type are kept. */
  lemma {:induction false} WordKept(b: Block, out: Block, abi: Abi, from: nat, to: nat, e: nat, field: nat)
    requires WellFormed(b, abi, from) && Rebased(b, out, abi, from, to)
    requires Elem(e) in Places(b, abi, from) && field + abi.word <= abi.key
    ensures Load(out, e + field, abi.word) == Load(b, e + field, abi.word)
  {
    assert PlaceOk(b, abi, from, Elem(e));
    HeadKept(b, out, Places(b, abi, from), abi, e, field);
  }

  lemma {:induction false} ListKept(b: Block, out: Block, abi: Abi, from: nat, to: nat, l: nat)
    requires WellFormed(b, abi, from) && Rebased(b, out, abi, from, to) && List(l) in Places(b, abi, from)
    ensures ListCount(out, abi, l) == ListCount(b, abi, l) && ListType(out, abi, l) == ListType(b, abi, l)
  {
    var places := Places(b, abi, from);
    assert PlaceOk(b, abi, from, List(l));
    forall i | l <= i < l + abi.List()
      ensures out[i] == b[i]
    {
      ListUntouched(places, abi, l, i);
    }
    LoadSame(b, out, l, abi.word);
    LoadSame(b, out, l + abi.word, abi.word);
  }

  lemma {:induction false} ListUntouched(places: seq<Place>, abi: Abi, l: nat, i: nat)
    requires Apart(places, abi) && List(l) in places && l <= i < l + abi.List()
    ensures !Touched(places, abi, i)
  {
    if Touched(places, abi, i) {
      var q :| q in places && q.Elem? && InPointers(abi, q.at, i);
      ApartPair(places, abi, List(l), q);
    }
  }

  predicate SameIn(b: Block, out: Block, abi: Abi, from: nat, to: nat, places: seq<Place>) {
    forall p :: p in places ==> SameAt(b, out, abi, from, to, p)
  }

  lemma {:induction false} SamePart(b: Block, out: Block, abi: Abi, from: nat, to: nat, places: seq<Place>, p: Place,
      x: seq<Place>, y: seq<Place>)
    requires SameIn(b, out, abi, from, to, places) && places == [p] + x + y
    ensures SameAt(b, out, abi, from, to, p) && SameIn(b, out, abi, from, to, x) && SameIn(b, out, abi, from, to, y)
  {
    assert p in places && (forall q :: q in x ==> q in places) && (forall q :: q in y ==> q in places);
  }

  lemma {:induction false} SameDict(b: Block, out: Block, abi: Abi, from: nat, to: nat, a: nat)
    requires SameAt(b, out, abi, from, to, Elem(a)) && SameIn(b, out, abi, from, to, DictPlaces(b, abi, from, a))
    ensures DictPlaces(out, abi, to, a) == DictPlaces(b, abi, from, a)
  {
    assert List(ValueOffset(b, abi, from, a)) in DictPlaces(b, abi, from, a);
  }

  lemma {:induction false} SameArray(b: Block, out: Block, abi: Abi, from: nat, to: nat, s: nat, k: nat, dicts: bool)
    requires SameIn(b, out, abi, from, to, ArrayPlaces(b, abi, from, s, k, dicts))
    ensures ArrayPlaces(out, abi, to, s, k, dicts) == ArrayPlaces(b, abi, from, s, k, dicts)
    decreases k
  {
    if k > 0 {
      SamePart(b, out, abi, from, to, ArrayPlaces(b, abi, from, s, k, dicts), Elem(s),
               if dicts then DictPlaces(b, abi, from, s) else [],
               ArrayPlaces(b, abi, from, s + abi.Element(), k - 1, dicts));
      if dicts {
        SameDict(b, out, abi, from, to, s);
      }
      SameArray(b, out, abi, from, to, s + abi.Element(), k - 1, dicts);
    }
  }

  lemma {:induction false} SameArrayAt(b: Block, out: Block, abi: Abi, from: nat, to: nat, l: nat)
    requires SameIn(b, out, abi, from, to, ArrayAt(b, abi, from, l))
    ensures ArrayAt(out, abi, to, l) == ArrayAt(b, abi, from, l)
  {
    var dicts := ListType(b, abi, l) == MAC_DATA_TYPE_DICT;
    SamePart(b, out, abi, from, to, ArrayAt(b, abi, from, l), List(l), [],
             ArrayPlaces(b, abi, from, l + abi.List(), ListCount(b, abi, l), dicts));
    SameArray(b, out, abi, from, to, l + abi.List(), ListCount(b, abi, l), dicts);
  }

  lemma {:induction false} SameNested(b: Block, out: Block, abi: Abi, from: nat, to: nat, e: nat)
    requires SameAt(b, out, abi, from, to, Elem(e)) && SameIn(b, out, abi, from, to, NestedPlaces(b, abi, from, e))
    ensures NestedPlaces(out, abi, to, e) == NestedPlaces(b, abi, from, e)
  {
    if Type(b, abi, e) == MAC_DATA_TYPE_ARRAY {
      SameArrayAt(b, out, abi, from, to, ValueOffset(b, abi, from, e));
    }
  }

  lemma {:induction false} SameTop(b: Block, out: Block, abi: Abi, from: nat, to: nat, s: nat, k: nat)
    requires SameIn(b, out, abi, from, to, TopPlaces(b, abi, from, s, k))
    ensures TopPlaces(out, abi, to, s, k) == TopPlaces(b, abi, from, s, k)
    decreases k
  {
    if k > 0 {
      TopParts(b, out, abi, from, to, s, k);
      SameNested(b, out, abi, from, to, s);
      SameTop(b, out, abi, from, to, s + abi.Element(), k - 1);
      TopWhole(b, out, abi, from, to, s, k);
    }
  }

  lemma {:induction false} TopParts(b: Block, out: Block, abi: Abi, from: nat, to: nat, s: nat, k: nat)
    requires k > 0 && SameIn(b, out, abi, from, to, TopPlaces(b, abi, from, s, k))
    ensures SameAt(b, out, abi, from, to, Elem(s)) && SameIn(b, out, abi, from, to, NestedPlaces(b, abi, from, s))
    ensures SameIn(b, out, abi, from, to, TopPlaces(b, abi, from, s + abi.Element(), k - 1))
  {
    SamePart(b, out, abi, from, to, TopPlaces(b, abi, from, s, k), Elem(s), NestedPlaces(b, abi, from, s),
             TopPlaces(b, abi, from, s + abi.Element(), k - 1));
  }

  lemma {:induction false} TopWhole(b: Block, out: Block, abi: Abi, from: nat, to: nat, s: nat, k: nat)
    requires k > 0 && NestedPlaces(out, abi, to, s) == NestedPlaces(b, abi, from, s)
    requires TopPlaces(out, abi, to, s + abi.Element(), k - 1) == TopPlaces(b, abi, from, s + abi.Element(), k - 1)
    ensures TopPlaces(out, abi, to, s, k) == TopPlaces(b, abi, from, s, k)
  {
  }

  lemma {:induction false} CountKept(b: Block, out: Block, abi: Abi, from: nat, to: nat)
    requires WellFormed(b, abi, from) && Rebased(b, out, abi, from, to)
    ensures TopCount(out, abi) == TopCount(b, abi)
  {
    var places := Places(b, abi, from);
    forall i | abi.Count() <= i < abi.Header()
      ensures out[i] == b[i]
    {
      assert !Touched(places, abi, i);
    }
    LoadSame(b, out, abi.Count(), abi.word);
  }

  /** The copy has the structure of the original and is well formed at its own address. */
  lemma {:induction false} CopyIsWellFormed(b: Block, out: Block, abi: Abi, from: nat, to: nat)
    requires WellFormed(b, abi, from) && Rebased(b, out, abi, from, to) && 0 < to && to + |b| < Limit(abi.ptr)
    ensures Places(out, abi, to) == Places(b, abi, from) && WellFormed(out, abi, to)
  {
    CountKept(b, out, abi, from, to);
    forall p | p in Places(b, abi, from)
      ensures SameAt(b, out, abi, from, to, p)
    {
      SamePlace(b, out, abi, from, to, p);
    }
    SameTop(b, out, abi, from, to, abi.Header(), TopCount(b, abi));
    forall p | p in Places(b, abi, from)
      ensures PlaceOk(out, abi, to, p)
    {
      assert PlaceOk(b, abi, from, p);
      if p.Elem? {
        PointersLand(b, out, abi, from, to, p.at);
      }
    }
  }

  /** The contract of the fixup leaves no freedom. */
  lemma {:induction false} RebasedUnique(b: Block, x: Block, y: Block, abi: Abi, from: nat, to: nat)
    requires WellFormed(b, abi, from) && Rebased(b, x, abi, from, to) && Rebased(b, y, abi, from, to)
    ensures x == y
  {
    SameBytes(x, y, 0, abi.ptr);
    var places := Places(b, abi, from);
    forall i | abi.ptr <= i < |b| && Touched(places, abi, i)
      ensures x[i] == y[i]
    {
      var p :| p in places && p.Elem? && InPointers(abi, p.at, i);
      assert PlaceOk(b, abi, from, p);
      SameElement(x, y, abi, p.at, i);
    }
  }

  lemma {:induction false} SameElement(x: Block, y: Block, abi: Abi, e: nat, i: nat)
    requires e + abi.Element() <= |x| == |y| && InPointers(abi, e, i)
    requires KeyPtr(x, abi, e) == KeyPtr(y, abi, e) && ValuePtr(x, abi, e) == ValuePtr(y, abi, e)
    ensures x[i] == y[i]
  {
    SameBytes(x, y, e + abi.key, abi.ptr);
    SameBytes(x, y, e + abi.Value(), abi.ptr);
  }

  lemma SameBytes(x: Block, y: Block, at: nat, n: nat)
    requires at + n <= |x| == |y| && Load(x, at, n) == Load(y, at, n)
    ensures forall i :: at <= i < at + n ==> x[i] == y[i]
  {
    BytesOfLoad(x, at, n);
    BytesOfLoad(y, at, n);
    forall i | at <= i < at + n
      ensures x[i] == y[i]
    {
      assert x[i] == x[at..at + n][i - at] && y[i] == y[at..at + n][i - at];
    }
  }

  /** Moving a block twice is moving it once to the last address. */
  lemma {:induction false} RebasedTwice(b: Block, mid: Block, out: Block, abi: Abi, from: nat, via: nat, to: nat)
    requires WellFormed(b, abi, from) && Rebased(b, mid, abi, from, via) && 0 < via && via + |b| < Limit(abi.ptr)
    requires Rebased(mid, out, abi, via, to) && 0 < to && to + |b| < Limit(abi.ptr)
    ensures Rebased(b, out, abi, from, to)
  {
    CopyIsWellFormed(b, mid, abi, from, via);
    forall e: nat | Elem(e) in Places(b, abi, from)
      ensures KeyPtr(out, abi, e) == MovedKey(KeyPtr(b, abi, e), from, to, abi)
      ensures ValuePtr(out, abi, e) == Moved(ValuePtr(b, abi, e), from, to, abi)
    {
      PointerTwice(b, mid, out, abi, from, via, to, e);
    }
  }

  lemma {:induction false} PointerTwice(b: Block, mid: Block, out: Block, abi: Abi, from: nat, via: nat, to: nat,
      e: nat)
    requires WellFormed(b, abi, from) && Rebased(b, mid, abi, from, via) && 0 < via && via + |b| < Limit(abi.ptr)
    requires WellFormed(mid, abi, via) && Rebased(mid, out, abi, via, to) && 0 < to && to + |b| < Limit(abi.ptr)
    requires Elem(e) in Places(b, abi, from) && Elem(e) in Places(mid, abi, via)
    ensures KeyPtr(out, abi, e) == MovedKey(KeyPtr(b, abi, e), from, to, abi)
    ensures ValuePtr(out, abi, e) == Moved(ValuePtr(b, abi, e), from, to, abi)
  {
    PointersLand(b, mid, abi, from, via, e);
    PointersLand(mid, out, abi, via, to, e);
    assert PlaceOk(b, abi, from, Elem(e));
    MovedInto(ValuePtr(b, abi, e), from, to, |b|, abi);
    if KeyPtr(b, abi, e) != 0 {
      MovedInto(KeyPtr(b, abi, e), from, to, |b|, abi);
    }
  }

  /** Moving a block to where it is changes nothing. */
  lemma {:induction false} RebasedInPlace(b: Block, abi: Abi, from: nat)
    requires WellFormed(b, abi, from) && from + |b| < Limit(abi.ptr)
    ensures Rebased(b, b, abi, from, from)
  {
    forall e: nat | Elem(e) in Places(b, abi, from)
      ensures KeyPtr(b, abi, e) == MovedKey(KeyPtr(b, abi, e), from, from, abi)
      ensures ValuePtr(b, abi, e) == Moved(ValuePtr(b, abi, e), from, from, abi)
    {
      assert PlaceOk(b, abi, from, Elem(e));
      MovedInto(ValuePtr(b, abi, e), from, from, |b|, abi);
      if KeyPtr(b, abi, e) != 0 {
        MovedInto(KeyPtr(b, abi, e), from, from, |b|, abi);
      }
    }
  }

  /** Moving the copy back to the original address gives the original, byte by byte. */
  lemma {:induction false} ThereAndBack(b: Block, out: Block, back: Block, abi: Abi, from: nat, to: nat)
    requires WellFormed(b, abi, from) && 0 < from && from + |b| < Limit(abi.ptr)
    requires Rebased(b, out, abi, from, to) && 0 < to && to + |b| < Limit(abi.ptr)
    requires Rebased(out, back, abi, to, from)
    ensures back == b
  {
    RebasedTwice(b, out, back, abi, from, to, from);
    RebasedInPlace(b, abi, from);
    RebasedUnique(b, back, b, abi, from, from);
  }

  /** The bytes in [lo, hi) belong to no pointer and not to the base address: payload. */
  predicate Payload(b: Block, abi: Abi, base: nat, lo: nat, hi: nat) {
    abi.ptr <= lo && hi <= |b| && forall i :: lo <= i < hi ==> !Touched(Places(b, abi, base), abi, i)
  }

  /** Payload has the same contents at the same offset of the copy. */
  lemma {:induction false} PayloadKept(b: Block, out: Block, abi: Abi, from: nat, to: nat, lo: nat, hi: nat)
    requires Rebased(b, out, abi, from, to) && Payload(b, abi, from, lo, hi) && lo <= hi
    ensures out[lo..hi] == b[lo..hi]
  {
    forall i | lo <= i < hi
      ensures out[i] == b[i]
    {
    }
  }

  lemma {:induction false} StringKept(b: Block, out: Block, at: nat)
    requires |out| == |b| && at + |StringAt(b, at)| < |b|
    requires forall i :: at <= i <= at + |StringAt(b, at)| ==> out[i] == b[i]
    ensures StringAt(out, at) == StringAt(b, at)
    decreases |b| - at
  {
    if b[at] != 0 {
      StringKept(b, out, at + 1);
    }
  }

  /** The key of the element at e is a terminated string that lies in the payload. */
  predicate KeyOk(b: Block, abi: Abi, base: nat, e: nat) {
    && KeyPtr(b, abi, e) != 0
    && var k := KeyOffset(b, abi, base, e);
       Payload(b, abi, base, k, k + |StringAt(b, k)| + 1)
  }

  lemma {:induction false} SameKey(b: Block, out: Block, abi: Abi, from: nat, to: nat, e: nat)
    requires WellFormed(b, abi, from) && Rebased(b, out, abi, from, to) && 0 < to && to + |b| < Limit(abi.ptr)
    requires Elem(e) in Places(b, abi, from) && KeyOk(b, abi, from, e)
    ensures KeyOffset(out, abi, to, e) == KeyOffset(b, abi, from, e)
    ensures StringAt(out, KeyOffset(out, abi, to, e)) == StringAt(b, KeyOffset(b, abi, from, e))
  {
    PointersLand(b, out, abi, from, to, e);
    assert PlaceOk(b, abi, from, Elem(e));
    var k := KeyOffset(b, abi, from, e);
    forall i | k <= i <= k + |StringAt(b, k)|
      ensures out[i] == b[i]
    {
    }
    StringKept(b, out, k);
  }

  /** The result of a search, as seen at the new address. */
  function MovedLookup(r: Lookup, from: nat, to: nat): Lookup {
    match r
    case NotFound => NotFound
    case Found(value, size) => Found(MovedAddress(value, from, to), size)
  }

  function MovedAddress(p: nat, from: nat, to: nat): nat {
    if p < from then to else to + (p - from)
  }

  /** Everything a search reads of one element. */
  predicate SameRead(b: Block, out: Block, abi: Abi, from: nat, to: nat, e: nat) {
    && StringAt(out, KeyOffset(out, abi, to, e)) == StringAt(b, KeyOffset(b, abi, from, e))
    && ValuePtr(out, abi, e) == MovedAddress(ValuePtr(b, abi, e), from, to)
    && ValueSize(out, abi, e) == ValueSize(b, abi, e)
  }

  lemma {:induction false} SizeKept(b: Block, out: Block, abi: Abi, from: nat, to: nat, e: nat)
    requires WellFormed(b, abi, from) && Rebased(b, out, abi, from, to) && Elem(e) in Places(b, abi, from)
    ensures ValueSize(out, abi, e) == ValueSize(b, abi, e)
  {
    var places := Places(b, abi, from);
    assert PlaceOk(b, abi, from, Elem(e));
    HeadKept(b, out, places, abi, e, abi.word);
  }

  lemma {:induction false} SameElementRead(b: Block, out: Block, abi: Abi, from: nat, to: nat, e: nat)
    requires WellFormed(b, abi, from) && Rebased(b, out, abi, from, to) && 0 < to && to + |b| < Limit(abi.ptr)
    requires Elem(e) in Places(b, abi, from) && KeyOk(b, abi, from, e)
    ensures SameRead(b, out, abi, from, to, e)
  {
    SameKey(b, out, abi, from, to, e);
    PointersLand(b, out, abi, from, to, e);
    SizeKept(b, out, abi, from, to, e);
  }

  lemma {:induction false} SameFind(b: Block, out: Block, abi: Abi, from: nat, to: nat, key: seq<Byte>, s: nat, k: nat)
    requires forall p :: p in Elements(abi, s, k) ==> SameRead(b, out, abi, from, to, p.at)
    ensures FindFrom(out, abi, to, key, s, k) == MovedLookup(FindFrom(b, abi, from, key, s, k), from, to)
    decreases k
  {
    if k > 0 {
      var later := Elements(abi, s + abi.Element(), k - 1);
      assert Elements(abi, s, k) == [Elem(s)] + later;
      assert Elem(s) in Elements(abi, s, k) && forall p :: p in later ==> p in Elements(abi, s, k);
      assert SameRead(b, out, abi, from, to, Elem(s).at);
      SameFind(b, out, abi, from, to, key, s + abi.Element(), k - 1);
    }
  }

  lemma {:induction false} ElementsAreTop(b: Block, abi: Abi, base: nat, s: nat, k: nat, p: Place)
    requires p in Elements(abi, s, k)
    ensures p.Elem? && p in TopPlaces(b, abi, base, s, k)
    decreases k
  {
    if k > 0 && p != Elem(s) {
      ElementsAreTop(b, abi, base, s + abi.Element(), k - 1, p);
    }
  }

  function TopElements(b: Block, abi: Abi): seq<Place> {
    Elements(abi, abi.Header(), TopCount(b, abi))
  }

  /** Every element of the block itself has a proper key. */
  predicate TopKeysOk(b: Block, abi: Abi, base: nat) {
    forall p :: p in TopElements(b, abi) ==> KeyOk(b, abi, base, p.at)
  }

  /** mac_find_module_data on the copy: the same key is found, with the same size, at the same offset. */
  lemma {:induction false} FindIsPreserved(b: Block, out: Block, abi: Abi, from: nat, to: nat, key: seq<Byte>)
    requires WellFormed(b, abi, from) && Rebased(b, out, abi, from, to) && 0 < to && to + |b| < Limit(abi.ptr)
    requires TopKeysOk(b, abi, from)
    ensures Find(out, abi, to, key) == MovedLookup(Find(b, abi, from, key), from, to)
  {
    CountKept(b, out, abi, from, to);
    forall p | p in TopElements(b, abi)
      ensures SameRead(b, out, abi, from, to, p.at)
    {
      ElementsAreTop(b, abi, from, abi.Header(), TopCount(b, abi), p);
      SameElementRead(b, out, abi, from, to, p.at);
    }
    SameFind(b, out, abi, from, to, key, abi.Header(), TopCount(b, abi));
  }

  /** Two finds of the same size lie inside their blocks, and the bytes found are the same. */
  predicate SameFound(b: Block, out: Block, from: nat, to: nat, r: Lookup, r': Lookup) {
    && r.Found? && r'.Found? && r'.size == r.size && |out| == |b|
    && r.value >= from && r.value - from + r.size <= |b|
    && r'.value >= to && r'.value - to + r'.size <= |out|
    && out[r'.value - to..r'.value - to + r'.size] == b[r.value - from..r.value - from + r.size]
  }

  /** The contents of the value found are the same in the copy, if they are payload. */
  lemma {:induction false} FoundContents(b: Block, out: Block, abi: Abi, from: nat, to: nat, key: seq<Byte>)
    requires WellFormed(b, abi, from) && Rebased(b, out, abi, from, to) && 0 < to && to + |b| < Limit(abi.ptr)
    requires TopKeysOk(b, abi, from) && Find(b, abi, from, key).Found?
    requires var r := Find(b, abi, from, key);
      r.value >= from && Payload(b, abi, from, r.value - from, r.value - from + r.size)
    ensures SameFound(b, out, from, to, Find(b, abi, from, key), Find(out, abi, to, key))
  {
    FindIsPreserved(b, out, abi, from, to, key);
    SamePayload(b, out, abi, from, to, Find(b, abi, from, key), Find(out, abi, to, key));
  }

  lemma {:induction false} SamePayload(b: Block, out: Block, abi: Abi, from: nat, to: nat, r: Lookup, r': Lookup)
    requires Rebased(b, out, abi, from, to) && r.Found? && r' == MovedLookup(r, from, to)
    requires r.value >= from && Payload(b, abi, from, r.value - from, r.value - from + r.size)
    ensures SameFound(b, out, from, to, r, r')
  {
    PayloadKept(b, out, abi, from, to, r.value - from, r.value - from + r.size);
  }

  predicate HasKey(b: Block, abi: Abi, base: nat, key: seq<Byte>, s: nat, i: nat) {
    StringAt(b, KeyOffset(b, abi, base, s + i * abi.Element())) == key
  }

  lemma NextElement(s: nat, i: nat, size: nat)
    requires i > 0
    ensures s + i * size == s + size + (i - 1) * size
  {
  }

  /** A search finds the first of k elements that has the key. */
  lemma {:induction false} FindHitsFirst(b: Block, abi: Abi, base: nat, key: seq<Byte>, s: nat, k: nat, i: nat)
    requires i < k && HasKey(b, abi, base, key, s, i) && forall j :: 0 <= j < i ==> !HasKey(b, abi, base, key, s, j)
    ensures FindFrom(b, abi, base, key, s, k) ==
      Found(ValuePtr(b, abi, s + i * abi.Element()), ValueSize(b, abi, s + i * abi.Element()))
    decreases k
  {
    if i > 0 {
      var next := s + abi.Element();
      assert s + 0 * abi.Element() == s && !HasKey(b, abi, base, key, s, 0);
      forall j | 0 <= j < i - 1
        ensures !HasKey(b, abi, base, key, next, j)
      {
        NextElement(s, j + 1, abi.Element());
        assert !HasKey(b, abi, base, key, s, j + 1);
      }
      NextElement(s, i, abi.Element());
      FindHitsFirst(b, abi, base, key, next, k - 1, i - 1);
    }
  }

  /** A search finds nothing if no element has the key. */
  lemma {:induction false} FindMisses(b: Block, abi: Abi, base: nat, key: seq<Byte>, s: nat, k: nat)
    requires forall j :: 0 <= j < k ==> !HasKey(b, abi, base, key, s, j)
    ensures FindFrom(b, abi, base, key, s, k) == NotFound
    decreases k
  {
    if k > 0 {
      var next := s + abi.Element();
      assert s + 0 * abi.Element() == s && !HasKey(b, abi, base, key, s, 0);
      forall j | 0 <= j < k - 1
        ensures !HasKey(b, abi, base, key, next, j)
      {
        NextElement(s, j + 1, abi.Element());
        assert !HasKey(b, abi, base, key, s, j + 1);
      }
      FindMisses(b, abi, base, key, next, k - 1);
    }
  }
}
