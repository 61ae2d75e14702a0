/** A policy's module data: a block of bytes whose elements point back into the block. */
module ModuleData {
  import opened Base

  type Block = seq<Byte>

  const MAC_DATA_TYPE_ARRAY := 1
  const MAC_DATA_TYPE_DICT := 2

  /** Width of a pointer and of an unsigned int, and offset of the first pointer in an element; the other offsets
      of the structures follow from these. */
  datatype Layout = Layout(ptr: nat, word: nat, key: nat) {
    /** Of struct mac_module_data: base_addr, size, count, data. */
    function Count(): nat { ptr + word }
    function Header(): nat { ptr + 2 * word }
    /** Of struct mac_module_data_list: count, type, list. */
    function List(): nat { 2 * word }
    /** Of struct mac_module_data_element: key_size, value_size, value_type, key, value. */
    function ValueSize(): nat { word }
    function ValueType(): nat { 2 * word }
    function Value(): nat { key + ptr }
    function Element(): nat { key + 2 * ptr }
  }

  const LP64 := Layout(8, 4, 16)

  /** The three words of an element come before its pointers. */
  type Abi = l: Layout | l.ptr > 0 && l.word > 0 && l.key >= 3 * l.word witness LP64

  /** 256 to the power n: addresses of n bytes are computed modulo this. */
  function Limit(n: nat): (r: nat)
    ensures r >= 1
  {
    if n == 0 then 1 else 256 * Limit(n - 1)
  }

  /** The little-endian number in the n bytes from at on. */
  function Load(b: Block, at: nat, n: nat): (v: nat)
    ensures v < Limit(n)
    decreases n
  {
    if n == 0 then 0
    else
      var low := if at < |b| then b[at] as int else 0;
      low + 256 * Load(b, at + 1, n - 1)
  }

  function Bytes(v: nat, n: nat): (r: Block)
    ensures |r| == n
  {
    if n == 0 then [] else [v % 256] + Bytes(v / 256, n - 1)
  }

  function Put(b: Block, at: nat, bytes: Block): (r: Block)
    requires at + |bytes| <= |b|
    ensures |r| == |b|
    ensures forall i :: 0 <= i < |b| ==> r[i] == if at <= i < at + |bytes| then bytes[i - at] else b[i]
  {
    b[..at] + bytes + b[at + |bytes|..]
  }

  lemma {:induction false} LoadSame(a: Block, b: Block, at: nat, n: nat)
    requires at + n <= |a| == |b| && forall i :: at <= i < at + n ==> a[i] == b[i]
    ensures Load(a, at, n) == Load(b, at, n)
    decreases n
  {
    if n > 0 {
      LoadSame(a, b, at + 1, n - 1);
    }
  }

  lemma {:induction false} LoadBytes(b: Block, at: nat, v: nat, n: nat)
    requires at + n <= |b| && v < Limit(n) && b[at..at + n] == Bytes(v, n)
    ensures Load(b, at, n) == v
    decreases n
  {
    if n > 0 {
      assert b[at + 1..at + n] == b[at..at + n][1..];
      LoadBytes(b, at + 1, v / 256, n - 1);
      assert b[at] == b[at..at + n][0];
    }
  }

  /** The bytes at a place are determined by the number they spell. */
  lemma {:induction false} BytesOfLoad(b: Block, at: nat, n: nat)
    requires at + n <= |b|
    ensures Bytes(Load(b, at, n), n) == b[at..at + n]
    decreases n
  {
    if n > 0 {
      BytesOfLoad(b, at + 1, n - 1);
      var low, rest := b[at] as int, Load(b, at + 1, n - 1);
      assert (low + 256 * rest) % 256 == low && (low + 256 * rest) / 256 == rest;
      assert b[at..at + n] == [b[at]] + b[at + 1..at + n];
    }
  }

  /** What a traversal meets in a block, with its offset. */
  datatype Place = Elem(at: nat) | List(at: nat) {
    function Size(abi: Abi): nat { if Elem? then abi.Element() else abi.List() }
  }

  function KeyPtr(b: Block, abi: Abi, e: nat): (p: nat)
    ensures p < Limit(abi.ptr)
  {
    Load(b, e + abi.key, abi.ptr)
  }

  function ValuePtr(b: Block, abi: Abi, e: nat): (p: nat)
    ensures p < Limit(abi.ptr)
  {
    Load(b, e + abi.Value(), abi.ptr)
  }

  /** Where the value of the element at e lies in a block that starts at address base. */
  function ValueOffset(b: Block, abi: Abi, base: nat, e: nat): nat {
    var p := ValuePtr(b, abi, e);
    if p < base then 0 else p - base
  }

  function Type(b: Block, abi: Abi, e: nat): nat { Load(b, e + abi.ValueType(), abi.word) }

  function ListCount(b: Block, abi: Abi, l: nat): nat { Load(b, l, abi.word) }

  function ListType(b: Block, abi: Abi, l: nat): nat { Load(b, l + abi.word, abi.word) }

  /** k consecutive elements from offset s on. */
  function Elements(abi: Abi, s: nat, k: nat): seq<Place>
    decreases k
  {
    if k == 0 then [] else [Elem(s)] + Elements(abi, s + abi.Element(), k - 1)
  }

  /** The dictionary that the value of the array element at a points to. */
  function DictPlaces(b: Block, abi: Abi, base: nat, a: nat): seq<Place> {
    var d := ValueOffset(b, abi, base, a);
    [List(d)] + Elements(abi, d + abi.List(), ListCount(b, abi, d))
  }

  function ArrayPlaces(b: Block, abi: Abi, base: nat, s: nat, k: nat, dicts: bool): seq<Place>
    decreases k
  {
    if k == 0 then []
    else
      [Elem(s)] + (if dicts then DictPlaces(b, abi, base, s) else [])
      + ArrayPlaces(b, abi, base, s + abi.Element(), k - 1, dicts)
  }

  /** The array whose header is at l. */
  function ArrayAt(b: Block, abi: Abi, base: nat, l: nat): seq<Place> {
    var dicts := ListType(b, abi, l) == MAC_DATA_TYPE_DICT;
    [List(l)] + ArrayPlaces(b, abi, base, l + abi.List(), ListCount(b, abi, l), dicts)
  }

  /** The array that the value of the element at e points to, if it is of array type. */
  function NestedPlaces(b: Block, abi: Abi, base: nat, e: nat): seq<Place> {
    if Type(b, abi, e) != MAC_DATA_TYPE_ARRAY then [] else ArrayAt(b, abi, base, ValueOffset(b, abi, base, e))
  }

  function TopPlaces(b: Block, abi: Abi, base: nat, s: nat, k: nat): seq<Place>
    decreases k
  {
    if k == 0 then []
    else [Elem(s)] + NestedPlaces(b, abi, base, s) + TopPlaces(b, abi, base, s + abi.Element(), k - 1)
  }

  function BaseAddr(b: Block, abi: Abi): nat { Load(b, 0, abi.ptr) }

  function TopCount(b: Block, abi: Abi): nat { Load(b, abi.Count(), abi.word) }

  /** Everything a traversal of a block at address base meets, in order. */
  function Places(b: Block, abi: Abi, base: nat): seq<Place> {
    TopPlaces(b, abi, base, abi.Header(), TopCount(b, abi))
  }

  predicate Disjoint(p: Place, q: Place, abi: Abi) {
    p.at + p.Size(abi) <= q.at || q.at + q.Size(abi) <= p.at
  }

  predicate Apart(places: seq<Place>, abi: Abi) {
    forall i, j :: 0 <= i < j < |places| ==> Disjoint(places[i], places[j], abi)
  }

  lemma {:induction false} ApartPair(places: seq<Place>, abi: Abi, p: Place, q: Place)
    requires Apart(places, abi) && p in places && q in places && p != q
    ensures Disjoint(p, q, abi)
  {
    var i :| 0 <= i < |places| && places[i] == p;
    var j :| 0 <= j < |places| && places[j] == q;
    assert i < j || j < i;
  }

  /** A pointer into a block of the given size at address base; the end counts, for data of size 0. */
  predicate Into(p: nat, base: nat, size: nat) {
    base <= p <= base + size
  }

  predicate PlaceOk(b: Block, abi: Abi, base: nat, p: Place) {
    && abi.Header() <= p.at && p.at + p.Size(abi) <= |b|
    && (p.Elem? ==>
          && (KeyPtr(b, abi, p.at) == 0 || Into(KeyPtr(b, abi, p.at), base, |b|))
          && Into(ValuePtr(b, abi, p.at), base, |b|))
  }

  /** A block whose pointers are relative to its base address and whose structures do not overlap. */
  predicate WellFormed(b: Block, abi: Abi, base: nat) {
    && abi.Header() <= |b|
    && BaseAddr(b, abi) == base
    && Apart(Places(b, abi, base), abi)
    && (forall p :: p in Places(b, abi, base) ==> PlaceOk(b, abi, base, p))
  }

  /** Pointer arithmetic wraps around. */
  function Moved(p: nat, from: nat, to: nat, abi: Abi): (r: nat)
    ensures r < Limit(abi.ptr)
  {
    ((p - from) % Limit(abi.ptr) + to) % Limit(abi.ptr)
  }

  lemma {:induction false} MovedInto(p: nat, from: nat, to: nat, size: nat, abi: Abi)
    requires Into(p, from, size) && p < Limit(abi.ptr) && to + size < Limit(abi.ptr)
    ensures Moved(p, from, to, abi) == to + (p - from)
  {
    SmallMod(p - from, Limit(abi.ptr));
    SmallMod(p - from + to, Limit(abi.ptr));
  }

  lemma SmallMod(x: int, m: nat)
    requires 0 <= x < m
    ensures x % m == x
  {
  }

  function MovedKey(p: nat, from: nat, to: nat, abi: Abi): (r: nat)
    ensures r < Limit(abi.ptr)
  {
    if p == 0 then 0 else Moved(p, from, to, abi)
  }

  /** Byte i belongs to the key or value pointer of the element at e. */
  predicate InPointers(abi: Abi, e: nat, i: nat) {
    e + abi.key <= i < e + abi.Element()
  }

  predicate Touched(places: seq<Place>, abi: Abi, i: nat) {
    exists p :: p in places && p.Elem? && InPointers(abi, p.at, i)
  }

  /** out is b with the pointers of the elements among places moved, and nothing else changed. */
  ghost predicate Relocated(b: Block, out: Block, places: seq<Place>, abi: Abi, from: nat, to: nat) {
    && |out| == |b|
    && (forall e {:trigger KeyPtr(out, abi, e)} {:trigger ValuePtr(out, abi, e)} :: Elem(e) in places ==>
          && KeyPtr(out, abi, e) == MovedKey(KeyPtr(b, abi, e), from, to, abi)
          && ValuePtr(out, abi, e) == Moved(ValuePtr(b, abi, e), from, to, abi))
    && (forall i :: 0 <= i < |b| && !Touched(places, abi, i) ==> out[i] == b[i])
  }

  /** The block with two adjacent n-byte pointers replaced. */
  function PutPair(b: Block, at: nat, n: nat, k: nat, v: nat): (r: Block)
    requires at + 2 * n <= |b|
    ensures |r| == |b|
    ensures forall i :: 0 <= i < |b| && !(at <= i < at + 2 * n) ==> r[i] == b[i]
  {
    Put(Put(b, at, Bytes(k, n)), at + n, Bytes(v, n))
  }

  lemma PairMeans(b: Block, at: nat, second: nat, n: nat, k: nat, v: nat)
    requires second == at + n && at + 2 * n <= |b| && k < Limit(n) && v < Limit(n)
    ensures Load(PutPair(b, at, n, k, v), at, n) == k && Load(PutPair(b, at, n, k, v), second, n) == v
  {
    var mid := Put(b, at, Bytes(k, n));
    PutLoad(b, at, k, n);
    PutLoad(mid, second, v, n);
    PutElsewhere(mid, second, Bytes(v, n), at, n);
  }

  /** The block with the pointers of the element at e moved. */
  function Fixed(b: Block, abi: Abi, e: nat, from: nat, to: nat): (r: Block)
    requires e + abi.Element() <= |b|
    ensures |r| == |b|
    ensures forall i :: 0 <= i < |b| && !InPointers(abi, e, i) ==> r[i] == b[i]
  {
    PutPair(b, e + abi.key, abi.ptr, MovedKey(KeyPtr(b, abi, e), from, to, abi),
        Moved(ValuePtr(b, abi, e), from, to, abi))
  }

  lemma PutLoad(b: Block, at: nat, v: nat, n: nat)
    requires at + n <= |b| && v < Limit(n)
    ensures Load(Put(b, at, Bytes(v, n)), at, n) == v
  {
    var r := Put(b, at, Bytes(v, n));
    assert r[at..at + n] == Bytes(v, n);
    LoadBytes(r, at, v, n);
  }

  lemma PutElsewhere(b: Block, at: nat, bytes: Block, place: nat, n: nat)
    requires at + |bytes| <= |b| && place + n <= |b| && (place + n <= at || at + |bytes| <= place)
    ensures Load(Put(b, at, bytes), place, n) == Load(b, place, n)
  {
    LoadSame(b, Put(b, at, bytes), place, n);
  }

  lemma {:induction false} FixedPair(b: Block, abi: Abi, e: nat, k: nat, v: nat)
    requires e + abi.Element() <= |b| && k < Limit(abi.ptr) && v < Limit(abi.ptr)
    ensures KeyPtr(PutPair(b, e + abi.key, abi.ptr, k, v), abi, e) == k
    ensures ValuePtr(PutPair(b, e + abi.key, abi.ptr, k, v), abi, e) == v
  {
    PairMeans(b, e + abi.key, e + abi.Value(), abi.ptr, k, v);
  }

  lemma {:induction false} FixedMeans(b: Block, abi: Abi, e: nat, from: nat, to: nat)
    requires e + abi.Element() <= |b|
    ensures KeyPtr(Fixed(b, abi, e, from, to), abi, e) == MovedKey(KeyPtr(b, abi, e), from, to, abi)
    ensures ValuePtr(Fixed(b, abi, e, from, to), abi, e) == Moved(ValuePtr(b, abi, e), from, to, abi)
  {
    FixedPair(b, abi, e, MovedKey(KeyPtr(b, abi, e), from, to, abi), Moved(ValuePtr(b, abi, e), from, to, abi));
  }

  predicate ApartFrom(places: seq<Place>, q: Place, abi: Abi) {
    forall p :: p in places ==> Disjoint(p, q, abi)
  }

  lemma PairSame(a: Block, b: Block, key: nat, value: nat, n: nat)
    requires key + n == value && value + n <= |a| == |b| && forall i :: key <= i < value + n ==> a[i] == b[i]
    ensures Load(a, key, n) == Load(b, key, n) && Load(a, value, n) == Load(b, value, n)
  {
    LoadSame(a, b, key, n);
    LoadSame(a, b, value, n);
  }

  lemma {:induction false} PointersSame(a: Block, b: Block, abi: Abi, e: nat)
    requires e + abi.Element() <= |a| == |b| && forall i: nat :: InPointers(abi, e, i) ==> a[i] == b[i]
    ensures KeyPtr(a, abi, e) == KeyPtr(b, abi, e) && ValuePtr(a, abi, e) == ValuePtr(b, abi, e)
  {
    PairSame(a, b, e + abi.key, e + abi.Value(), abi.ptr);
  }

  /** An element apart from those done still has its original pointers. */
  lemma {:induction false} PointersKept(b: Block, cur: Block, done: seq<Place>, abi: Abi, e: nat, from: nat, to: nat)
    requires Relocated(b, cur, done, abi, from, to) && ApartFrom(done, Elem(e), abi) && e + abi.Element() <= |b|
    ensures KeyPtr(cur, abi, e) == KeyPtr(b, abi, e) && ValuePtr(cur, abi, e) == ValuePtr(b, abi, e)
  {
    forall i: nat | InPointers(abi, e, i)
      ensures cur[i] == b[i]
    {
      Untouched(done, abi, Elem(e), i);
    }
    PointersSame(cur, b, abi, e);
  }

  /** Fixing an element leaves the pointers of one apart from it alone. */
  lemma {:induction false} FixedElsewhere(cur: Block, abi: Abi, e: nat, d: nat, from: nat, to: nat)
    requires e + abi.Element() <= |cur| && d + abi.Element() <= |cur| && Disjoint(Elem(d), Elem(e), abi)
    ensures var next := Fixed(cur, abi, e, from, to);
      KeyPtr(next, abi, d) == KeyPtr(cur, abi, d) && ValuePtr(next, abi, d) == ValuePtr(cur, abi, d)
  {
    FixedMeans(cur, abi, e, from, to);
    PointersSame(Fixed(cur, abi, e, from, to), cur, abi, d);
  }

  lemma {:induction false} TouchedMore(places: seq<Place>, q: Place, abi: Abi, i: nat)
    ensures Touched(places + [q], abi, i) <==> Touched(places, abi, i) || (q.Elem? && InPointers(abi, q.at, i))
  {
    if Touched(places, abi, i) {
      var p :| p in places && p.Elem? && InPointers(abi, p.at, i);
      assert p in places + [q];
    }
    assert q in places + [q];
  }

  /** Fixing one more element, apart from those done. */
  lemma {:induction false} RelocatedStep(b: Block, cur: Block, done: seq<Place>, abi: Abi, e: nat, from: nat, to: nat)
    requires Relocated(b, cur, done, abi, from, to) && ApartFrom(done, Elem(e), abi) && e + abi.Element() <= |b|
    requires forall p :: p in done ==> p.at + p.Size(abi) <= |b|
    ensures Relocated(b, Fixed(cur, abi, e, from, to), done + [Elem(e)], abi, from, to)
  {
    var next := Fixed(cur, abi, e, from, to);
    FixedMeans(cur, abi, e, from, to);
    PointersKept(b, cur, done, abi, e, from, to);
    forall p | p in done + [Elem(e)] && p.Elem?
      ensures KeyPtr(next, abi, p.at) == MovedKey(KeyPtr(b, abi, p.at), from, to, abi)
      ensures ValuePtr(next, abi, p.at) == Moved(ValuePtr(b, abi, p.at), from, to, abi)
    {
      if p in done {
        FixedElsewhere(cur, abi, e, p.at, from, to);
      }
    }
    forall i | 0 <= i < |b| && !Touched(done + [Elem(e)], abi, i)
      ensures next[i] == b[i]
    {
      TouchedMore(done, Elem(e), abi, i);
    }
  }

  lemma {:induction false} Untouched(places: seq<Place>, abi: Abi, q: Place, i: nat)
    requires ApartFrom(places, q, abi) && q.at <= i < q.at + q.Size(abi)
    ensures !Touched(places, abi, i)
  {
  }

  /** A list header is no part of any element, so it can be read before or after. */
  lemma {:induction false} RelocatedList(b: Block, cur: Block, places: seq<Place>, abi: Abi, l: nat, from: nat, to: nat)
    requires Relocated(b, cur, places, abi, from, to) && ApartFrom(places, List(l), abi) && l + abi.List() <= |b|
    ensures ListCount(cur, abi, l) == ListCount(b, abi, l) && ListType(cur, abi, l) == ListType(b, abi, l)
    ensures Relocated(b, cur, places + [List(l)], abi, from, to)
  {
    forall i | l <= i < l + abi.List()
      ensures cur[i] == b[i]
    {
      Untouched(places, abi, List(l), i);
    }
    LoadSame(b, cur, l, abi.word);
    LoadSame(b, cur, l + abi.word, abi.word);
    forall i | 0 <= i < |b| && !Touched(places + [List(l)], abi, i)
      ensures cur[i] == b[i]
    {
      TouchedMore(places, List(l), abi, i);
    }
  }

  /** The words in front of the pointers of an element are no part of any pointer. */
  lemma {:induction false} HeadUntouched(places: seq<Place>, abi: Abi, e: nat, i: nat)
    requires Apart(places, abi) && Elem(e) in places && e <= i < e + abi.key
    ensures !Touched(places, abi, i)
  {
    if Touched(places, abi, i) {
      var p :| p in places && p.Elem? && InPointers(abi, p.at, i);
      ApartPair(places, abi, p, Elem(e));
    }
  }

  lemma {:induction false} HeadKept(b: Block, cur: Block, places: seq<Place>, abi: Abi, e: nat, field: nat)
    requires Apart(places, abi) && Elem(e) in places && field + abi.word <= abi.key && e + abi.Element() <= |b| == |cur|
    requires forall i :: abi.ptr <= i < |b| && !Touched(places, abi, i) ==> cur[i] == b[i]
    requires abi.ptr <= e
    ensures Load(cur, e + field, abi.word) == Load(b, e + field, abi.word)
  {
    forall i | e + field <= i < e + field + abi.word
      ensures cur[i] == b[i]
    {
      HeadUntouched(places, abi, e, i);
    }
    LoadSame(b, cur, e + field, abi.word);
  }

  /** out is the block b, built for address from, with everything in it made relative to address to. */
  ghost predicate Rebased(b: Block, out: Block, abi: Abi, from: nat, to: nat) {
    && |out| == |b| && BaseAddr(out, abi) == to
    && (forall e {:trigger KeyPtr(out, abi, e)} {:trigger ValuePtr(out, abi, e)} :: Elem(e) in Places(b, abi, from) ==>
          && KeyPtr(out, abi, e) == MovedKey(KeyPtr(b, abi, e), from, to, abi)
          && ValuePtr(out, abi, e) == Moved(ValuePtr(b, abi, e), from, to, abi))
    && (forall i :: abi.ptr <= i < |b| && !Touched(Places(b, abi, from), abi, i) ==> out[i] == b[i])
  }

  /** Result of a search: the value pointer and size of the element found. */
  datatype Lookup = NotFound | Found(value: nat, size: nat)

  /** The C string at an offset; it ends at the block at the latest. */
  function StringAt(b: Block, at: nat): seq<Byte>
    decreases |b| - at
  {
    if at >= |b| || b[at] == 0 then [] else [b[at]] + StringAt(b, at + 1)
  }

  function KeyOffset(b: Block, abi: Abi, base: nat, e: nat): nat {
    var p := KeyPtr(b, abi, e);
    if p < base then 0 else p - base
  }

  function ValueSize(b: Block, abi: Abi, e: nat): nat { Load(b, e + abi.ValueSize(), abi.word) }

  /** The first of k elements from offset s on whose key is the given string. */
  function FindFrom(b: Block, abi: Abi, base: nat, key: seq<Byte>, s: nat, k: nat): Lookup
    decreases k
  {
    if k == 0 then NotFound
    else if StringAt(b, KeyOffset(b, abi, base, s)) == key then Found(ValuePtr(b, abi, s), ValueSize(b, abi, s))
    else FindFrom(b, abi, base, key, s + abi.Element(), k - 1)
  }

  function Find(b: Block, abi: Abi, base: nat, key: seq<Byte>): Lookup {
    FindFrom(b, abi, base, key, abi.Header(), TopCount(b, abi))
  }

  /** All keys can be compared: no element lies outside the block and no key is null. */
  predicate Readable(b: Block, abi: Abi, base: nat) {
    && abi.Header() + TopCount(b, abi) * abi.Element() <= |b|
    && forall i :: 0 <= i < TopCount(b, abi) ==> Into(KeyPtr(b, abi, TopElement(abi, i)), base, |b|)
  }

  /** Offset of the i-th element of the block. */
  function TopElement(abi: Abi, i: nat): nat { abi.Header() + i * abi.Element() }
}
