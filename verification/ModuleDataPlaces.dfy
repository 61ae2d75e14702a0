/** Which elements and lists the fixup of module data meets, in terms of the words in the block. */
module ModuleDataPlaces {
  import opened Base
  import opened ModuleData
  import opened ModuleDataLaws

  /** Offset of element j of a row of elements that begins at s. */
  function Nth(abi: Abi, s: nat, j: nat): nat {
    s + j * (abi.key + 2 * abi.ptr)
  }

  lemma {:induction false} NthNext(abi: Abi, s: nat, j: nat)
    ensures Nth(abi, s + abi.Element(), j) == Nth(abi, s, j + 1) && Nth(abi, s, 0) == s
  {
    assert (j + 1) * abi.Element() == j * abi.Element() + abi.Element();
  }

  /** e is one of n elements in a row that begins at s. */
  ghost predicate InRow(abi: Abi, s: nat, n: nat, e: nat) {
    exists j: nat :: j < n && e == Nth(abi, s, j)
  }

  /** e is an element of struct mac_module_data: the count lies behind base_addr and size, the elements behind it. */
  ghost predicate IsTop(b: Block, abi: Abi, e: nat) {
    InRow(abi, abi.ptr + 2 * abi.word, Load(b, abi.ptr + abi.word, abi.word), e)
  }

  /** e is an element of the struct mac_module_data_list at l: count, type, elements. */
  ghost predicate IsListed(b: Block, abi: Abi, l: nat, e: nat) {
    InRow(abi, l + 2 * abi.word, Load(b, l, abi.word), e)
  }

  /** Where the value pointer of the element at e leads, behind its key pointer. */
  function Target(b: Block, abi: Abi, base: nat, e: nat): nat {
    var p := Load(b, e + abi.key + abi.ptr, abi.ptr);
    if p < base then 0 else p - base
  }

  /** l is the array that a top element with value_type MAC_DATA_TYPE_ARRAY points to. */
  ghost predicate IsArray(b: Block, abi: Abi, base: nat, l: nat) {
    exists t: nat :: IsTop(b, abi, t) && Load(b, t + 2 * abi.word, abi.word) == 1 && l == Target(b, abi, base, t)
  }

  /** l is a dictionary that an element of an array with type MAC_DATA_TYPE_DICT points to. */
  ghost predicate IsDict(b: Block, abi: Abi, base: nat, l: nat) {
    exists a: nat, e: nat ::
      && IsArray(b, abi, base, a) && Load(b, a + abi.word, abi.word) == 2
      && IsListed(b, abi, a, e) && l == Target(b, abi, base, e)
  }

  ghost predicate IsArrayElement(b: Block, abi: Abi, base: nat, e: nat) {
    exists l: nat :: IsArray(b, abi, base, l) && IsListed(b, abi, l, e)
  }

  ghost predicate IsDictElement(b: Block, abi: Abi, base: nat, e: nat) {
    exists l: nat :: IsDict(b, abi, base, l) && IsListed(b, abi, l, e)
  }

  lemma {:induction false} ElementsAre(abi: Abi, s: nat, k: nat, p: Place)
    ensures p in Elements(abi, s, k) <==> exists j: nat :: j < k && p == Elem(Nth(abi, s, j))
    decreases k
  {
    if k > 0 {
      var next := s + abi.Element();
      ElementsAre(abi, next, k - 1, p);
      NthNext(abi, s, 0);
      if j: nat :| j < k - 1 && p == Elem(Nth(abi, next, j)) {
        NthNext(abi, s, j);
        assert p == Elem(Nth(abi, s, j + 1));
      }
      if j: nat :| j < k && p == Elem(Nth(abi, s, j)) {
        if j > 0 {
          NthNext(abi, s, j - 1);
          assert p == Elem(Nth(abi, next, j - 1));
        }
      }
    }
  }

  /** Element j of the array at s, or something its dictionary holds. */
  predicate FromArray(b: Block, abi: Abi, base: nat, s: nat, j: nat, dicts: bool, p: Place) {
    p in ArrayPart(b, abi, base, Nth(abi, s, j), dicts)
  }

  function ArrayPart(b: Block, abi: Abi, base: nat, e: nat, dicts: bool): seq<Place> {
    [Elem(e)] + (if dicts then DictPlaces(b, abi, base, e) else [])
  }

  lemma {:induction false} ArrayPartMeans(b: Block, abi: Abi, base: nat, e: nat, dicts: bool, p: Place)
    ensures p in ArrayPart(b, abi, base, e, dicts) <==> p == Elem(e) || (dicts && p in DictPlaces(b, abi, base, e))
  {
  }

  ghost predicate FromArrayRow(b: Block, abi: Abi, base: nat, s: nat, k: nat, dicts: bool, p: Place) {
    exists j: nat :: j < k && FromArray(b, abi, base, s, j, dicts, p)
  }

  lemma {:induction false} ArrayPlacesAre(b: Block, abi: Abi, base: nat, s: nat, k: nat, dicts: bool, p: Place)
    ensures p in ArrayPlaces(b, abi, base, s, k, dicts) <==> FromArrayRow(b, abi, base, s, k, dicts, p)
    decreases k
  {
    if k > 0 {
      var next, m := s + abi.Element(), k - 1;
      ArrayPlacesAre(b, abi, base, next, m, dicts, p);
      FromArrayNext(b, abi, base, s, next, k, m, dicts, p);
      ArrayHead(b, abi, base, s, next, k, m, dicts, p);
    } else {
      assert ArrayPlaces(b, abi, base, s, k, dicts) == [];
    }
  }

  lemma {:induction false} ArrayHead(b: Block, abi: Abi, base: nat, s: nat, next: nat, k: nat, m: nat, dicts: bool,
      p: Place)
    requires k == m + 1 && next == s + abi.Element()
    ensures p in ArrayPlaces(b, abi, base, s, k, dicts)
       <==> FromArray(b, abi, base, s, 0, dicts, p) || p in ArrayPlaces(b, abi, base, next, m, dicts)
  {
    NthNext(abi, s, 0);
    ArrayUnfolds(b, abi, base, s, next, k, m, dicts);
  }

  lemma {:induction false} ArrayUnfolds(b: Block, abi: Abi, base: nat, s: nat, next: nat, k: nat, m: nat, dicts: bool)
    requires k == m + 1 && next == s + abi.Element()
    ensures ArrayPlaces(b, abi, base, s, k, dicts)
         == ArrayPart(b, abi, base, s, dicts) + ArrayPlaces(b, abi, base, next, m, dicts)
  {
  }

  lemma {:induction false} FromArrayNext(b: Block, abi: Abi, base: nat, s: nat, next: nat, k: nat, m: nat, dicts: bool,
      p: Place)
    requires k == m + 1 && next == s + abi.Element()
    ensures FromArrayRow(b, abi, base, s, k, dicts, p)
       <==> FromArray(b, abi, base, s, 0, dicts, p) || FromArrayRow(b, abi, base, next, m, dicts, p)
  {
    if FromArrayRow(b, abi, base, next, m, dicts, p) {
      FromArrayMore(b, abi, base, s, next, k, m, dicts, p);
    }
    if i: nat :| 0 < i < k && FromArray(b, abi, base, s, i, dicts, p) {
      FromArrayLess(b, abi, base, s, next, m, i, i - 1, dicts, p);
    }
  }

  lemma {:induction false} FromArrayMore(b: Block, abi: Abi, base: nat, s: nat, next: nat, k: nat, m: nat, dicts: bool,
      p: Place)
    requires k == m + 1 && next == s + abi.Element() && FromArrayRow(b, abi, base, next, m, dicts, p)
    ensures FromArrayRow(b, abi, base, s, k, dicts, p)
  {
    var j: nat :| j < m && FromArray(b, abi, base, next, j, dicts, p);
    FromArrayShift(b, abi, base, s, next, j, j + 1, dicts, p);
  }

  lemma {:induction false} FromArrayLess(b: Block, abi: Abi, base: nat, s: nat, next: nat, m: nat, i: nat, j: nat,
      dicts: bool, p: Place)
    requires i == j + 1 && j < m && next == s + abi.Element() && FromArray(b, abi, base, s, i, dicts, p)
    ensures FromArrayRow(b, abi, base, next, m, dicts, p)
  {
    FromArrayShift(b, abi, base, s, next, j, i, dicts, p);
  }

  lemma {:induction false} FromArrayShift(b: Block, abi: Abi, base: nat, s: nat, next: nat, i: nat, j: nat, dicts: bool,
      p: Place)
    requires next == s + abi.Element() && j == i + 1
    ensures FromArray(b, abi, base, next, i, dicts, p) <==> FromArray(b, abi, base, s, j, dicts, p)
  {
    NthNext(abi, s, i);
  }

  /** Top element i, or something in its array. */
  predicate FromTop(b: Block, abi: Abi, base: nat, s: nat, i: nat, p: Place) {
    p in TopPart(b, abi, base, Nth(abi, s, i))
  }

  function TopPart(b: Block, abi: Abi, base: nat, t: nat): seq<Place> {
    [Elem(t)] + NestedPlaces(b, abi, base, t)
  }

  ghost predicate FromTopRow(b: Block, abi: Abi, base: nat, s: nat, k: nat, p: Place) {
    exists i: nat :: i < k && FromTop(b, abi, base, s, i, p)
  }

  lemma {:induction false} TopPlacesAre(b: Block, abi: Abi, base: nat, s: nat, k: nat, p: Place)
    ensures p in TopPlaces(b, abi, base, s, k) <==> FromTopRow(b, abi, base, s, k, p)
    decreases k
  {
    if k > 0 {
      var next, m := s + abi.Element(), k - 1;
      TopPlacesAre(b, abi, base, next, m, p);
      FromTopNext(b, abi, base, s, next, k, m, p);
      TopHead(b, abi, base, s, next, k, m, p);
    } else {
      assert TopPlaces(b, abi, base, s, k) == [];
    }
  }

  lemma {:induction false} TopHead(b: Block, abi: Abi, base: nat, s: nat, next: nat, k: nat, m: nat, p: Place)
    requires k == m + 1 && next == s + abi.Element()
    ensures p in TopPlaces(b, abi, base, s, k)
       <==> FromTop(b, abi, base, s, 0, p) || p in TopPlaces(b, abi, base, next, m)
  {
    NthNext(abi, s, 0);
    assert TopPlaces(b, abi, base, s, k) == TopPart(b, abi, base, s) + TopPlaces(b, abi, base, next, m);
  }

  lemma {:induction false} FromTopNext(b: Block, abi: Abi, base: nat, s: nat, next: nat, k: nat, m: nat, p: Place)
    requires k == m + 1 && next == s + abi.Element()
    ensures FromTopRow(b, abi, base, s, k, p)
       <==> FromTop(b, abi, base, s, 0, p) || FromTopRow(b, abi, base, next, m, p)
  {
    if FromTopRow(b, abi, base, next, m, p) {
      FromTopMore(b, abi, base, s, next, k, m, p);
    }
    if i: nat :| 0 < i < k && FromTop(b, abi, base, s, i, p) {
      FromTopLess(b, abi, base, s, next, m, i, i - 1, p);
    }
  }

  lemma {:induction false} FromTopMore(b: Block, abi: Abi, base: nat, s: nat, next: nat, k: nat, m: nat, p: Place)
    requires k == m + 1 && next == s + abi.Element() && FromTopRow(b, abi, base, next, m, p)
    ensures FromTopRow(b, abi, base, s, k, p)
  {
    var i: nat :| i < m && FromTop(b, abi, base, next, i, p);
    FromTopShift(b, abi, base, s, next, i, i + 1, p);
  }

  lemma {:induction false} FromTopLess(b: Block, abi: Abi, base: nat, s: nat, next: nat, m: nat, i: nat, j: nat,
      p: Place)
    requires i == j + 1 && j < m && next == s + abi.Element() && FromTop(b, abi, base, s, i, p)
    ensures FromTopRow(b, abi, base, next, m, p)
  {
    FromTopShift(b, abi, base, s, next, j, i, p);
  }

  lemma {:induction false} FromTopShift(b: Block, abi: Abi, base: nat, s: nat, next: nat, i: nat, j: nat, p: Place)
    requires next == s + abi.Element() && j == i + 1
    ensures FromTop(b, abi, base, next, i, p) <==> FromTop(b, abi, base, s, j, p)
  {
    NthNext(abi, s, i);
  }

  ghost predicate Listed(b: Block, abi: Abi, l: nat, p: Place) {
    p == List(l) || (p.Elem? && IsListed(b, abi, l, p.at))
  }

  lemma {:induction false} ListedMeans(b: Block, abi: Abi, l: nat, p: Place)
    ensures Listed(b, abi, l, p) <==> p in [List(l)] + Elements(abi, l + abi.List(), ListCount(b, abi, l))
  {
    ElementsAre(abi, l + abi.List(), ListCount(b, abi, l), p);
  }

  /** What the array at l holds: itself, its elements, and their dictionaries if its type is that of dictionaries. */
  ghost predicate InArray(b: Block, abi: Abi, base: nat, l: nat, p: Place) {
    || Listed(b, abi, l, p)
    || (Load(b, l + abi.word, abi.word) == 2
        && exists e: nat :: IsListed(b, abi, l, e) && Listed(b, abi, Target(b, abi, base, e), p))
  }

  lemma {:induction false} InArrayMeans(b: Block, abi: Abi, base: nat, l: nat, p: Place)
    ensures InArray(b, abi, base, l, p) == (p in ArrayAt(b, abi, base, l))
  {
    if p in ArrayAt(b, abi, base, l) {
      PlaceInArray(b, abi, base, l, p);
    }
    if InArray(b, abi, base, l, p) {
      InArrayIsPlace(b, abi, base, l, p);
    }
  }

  lemma {:induction false} PlaceInArray(b: Block, abi: Abi, base: nat, l: nat, p: Place)
    requires p in ArrayAt(b, abi, base, l)
    ensures InArray(b, abi, base, l, p)
  {
    ArrayAtMeans(b, abi, base, l, p);
    if p != List(l) {
      RowInArray(b, abi, base, l, p);
    }
  }

  lemma {:induction false} InArrayIsPlace(b: Block, abi: Abi, base: nat, l: nat, p: Place)
    requires InArray(b, abi, base, l, p)
    ensures p in ArrayAt(b, abi, base, l)
  {
    ArrayAtMeans(b, abi, base, l, p);
    if p != List(l) {
      InArrayRow(b, abi, base, l, p);
    }
  }

  lemma {:induction false} RowInArray(b: Block, abi: Abi, base: nat, l: nat, p: Place)
    requires FromArrayRow(b, abi, base, l + abi.List(), ListCount(b, abi, l),
                          ListType(b, abi, l) == MAC_DATA_TYPE_DICT, p)
    ensures InArray(b, abi, base, l, p)
  {
    var s, k, dicts := l + abi.List(), ListCount(b, abi, l), ListType(b, abi, l) == MAC_DATA_TYPE_DICT;
    var j: nat :| j < k && FromArray(b, abi, base, s, j, dicts, p);
    var e := Nth(abi, s, j);
    assert IsListed(b, abi, l, e);
    ArrayPartMeans(b, abi, base, e, dicts, p);
    DictMeans(b, abi, base, e, p);
  }

  lemma {:induction false} ArrayAtMeans(b: Block, abi: Abi, base: nat, l: nat, p: Place)
    ensures (p in ArrayAt(b, abi, base, l))
         == (p == List(l) || FromArrayRow(b, abi, base, l + abi.List(), ListCount(b, abi, l),
                                          ListType(b, abi, l) == MAC_DATA_TYPE_DICT, p))
  {
    ArrayPlacesAre(b, abi, base, l + abi.List(), ListCount(b, abi, l), ListType(b, abi, l) == MAC_DATA_TYPE_DICT, p);
  }

  lemma {:induction false} InArrayRow(b: Block, abi: Abi, base: nat, l: nat, p: Place)
    requires InArray(b, abi, base, l, p) && p != List(l)
    ensures FromArrayRow(b, abi, base, l + abi.List(), ListCount(b, abi, l),
                         ListType(b, abi, l) == MAC_DATA_TYPE_DICT, p)
  {
    var s, k, dicts := l + abi.List(), ListCount(b, abi, l), ListType(b, abi, l) == MAC_DATA_TYPE_DICT;
    if Listed(b, abi, l, p) {
      var j: nat :| j < k && p.at == Nth(abi, s, j);
      ArrayPartMeans(b, abi, base, Nth(abi, s, j), dicts, p);
      assert FromArray(b, abi, base, s, j, dicts, p);
    } else {
      var e: nat :| IsListed(b, abi, l, e) && Listed(b, abi, Target(b, abi, base, e), p);
      var j: nat :| j < k && e == Nth(abi, s, j);
      DictMeans(b, abi, base, e, p);
      ArrayPartMeans(b, abi, base, e, dicts, p);
      assert FromArray(b, abi, base, s, j, dicts, p);
    }
  }

  lemma {:induction false} DictMeans(b: Block, abi: Abi, base: nat, e: nat, p: Place)
    ensures p in DictPlaces(b, abi, base, e) <==> Listed(b, abi, Target(b, abi, base, e), p)
  {
    assert Target(b, abi, base, e) == ValueOffset(b, abi, base, e);
    ListedMeans(b, abi, Target(b, abi, base, e), p);
  }

  lemma {:induction false} NestedMeans(b: Block, abi: Abi, base: nat, t: nat, p: Place)
    ensures p in NestedPlaces(b, abi, base, t)
       <==> Load(b, t + 2 * abi.word, abi.word) == 1 && InArray(b, abi, base, Target(b, abi, base, t), p)
  {
    assert Target(b, abi, base, t) == ValueOffset(b, abi, base, t);
    InArrayMeans(b, abi, base, Target(b, abi, base, t), p);
  }

  lemma {:induction false} PlacesMeans(b: Block, abi: Abi, base: nat, p: Place)
    ensures p in Places(b, abi, base)
       <==> (p.Elem? && IsTop(b, abi, p.at)) || exists l: nat :: IsArray(b, abi, base, l) && InArray(b, abi, base, l, p)
  {
    if p in Places(b, abi, base) {
      PlaceIsFrom(b, abi, base, p);
    }
    if p.Elem? && IsTop(b, abi, p.at) {
      TopIsPlace(b, abi, base, p);
    }
    if exists l: nat :: IsArray(b, abi, base, l) && InArray(b, abi, base, l, p) {
      var l: nat :| IsArray(b, abi, base, l) && InArray(b, abi, base, l, p);
      ArrayOfTop(b, abi, base, l, p);
    }
  }

  lemma {:induction false} PlaceIsFrom(b: Block, abi: Abi, base: nat, p: Place)
    requires p in Places(b, abi, base)
    ensures (p.Elem? && IsTop(b, abi, p.at)) || exists l: nat :: IsArray(b, abi, base, l) && InArray(b, abi, base, l, p)
  {
    TopPlacesAre(b, abi, base, abi.Header(), TopCount(b, abi), p);
    var i: nat :| i < TopCount(b, abi) && FromTop(b, abi, base, abi.Header(), i, p);
    NthIsTop(b, abi, i);
    PartIsFrom(b, abi, base, Nth(abi, abi.Header(), i), p);
  }

  lemma {:induction false} NthIsTop(b: Block, abi: Abi, i: nat)
    requires i < TopCount(b, abi)
    ensures IsTop(b, abi, Nth(abi, abi.Header(), i))
  {
  }

  lemma {:induction false} PartIsFrom(b: Block, abi: Abi, base: nat, t: nat, p: Place)
    requires IsTop(b, abi, t) && p in TopPart(b, abi, base, t)
    ensures (p.Elem? && IsTop(b, abi, p.at)) || exists l: nat :: IsArray(b, abi, base, l) && InArray(b, abi, base, l, p)
  {
    if p != Elem(t) {
      NestedIsFrom(b, abi, base, t, p);
    }
  }

  lemma {:induction false} NestedIsFrom(b: Block, abi: Abi, base: nat, t: nat, p: Place)
    requires IsTop(b, abi, t) && p in NestedPlaces(b, abi, base, t)
    ensures exists l: nat :: IsArray(b, abi, base, l) && InArray(b, abi, base, l, p)
  {
    NestedMeans(b, abi, base, t, p);
    assert IsArray(b, abi, base, Target(b, abi, base, t));
  }

  lemma {:induction false} TopIsPlace(b: Block, abi: Abi, base: nat, p: Place)
    requires p.Elem? && IsTop(b, abi, p.at)
    ensures p in Places(b, abi, base)
  {
    var s, k := abi.Header(), TopCount(b, abi);
    TopPlacesAre(b, abi, base, s, k, p);
    var i: nat :| i < k && p.at == Nth(abi, s, i);
    assert FromTop(b, abi, base, s, i, p);
  }

  lemma {:induction false} ArrayOfTop(b: Block, abi: Abi, base: nat, l: nat, p: Place)
    requires IsArray(b, abi, base, l) && InArray(b, abi, base, l, p)
    ensures p in Places(b, abi, base)
  {
    var s, k := abi.Header(), TopCount(b, abi);
    var t: nat :| IsTop(b, abi, t) && Load(b, t + 2 * abi.word, abi.word) == 1 && l == Target(b, abi, base, t);
    var i: nat :| i < k && t == Nth(abi, s, i);
    NestedMeans(b, abi, base, t, p);
    assert FromTop(b, abi, base, s, i, p);
    TopPlacesAre(b, abi, base, s, k, p);
  }

  /** The fixup meets exactly the top elements, the elements of their arrays, and those of the dictionaries in them. */
  lemma {:induction false} ElementMetIff(b: Block, abi: Abi, base: nat, e: nat)
    ensures Elem(e) in Places(b, abi, base)
       <==> IsTop(b, abi, e) || IsArrayElement(b, abi, base, e) || IsDictElement(b, abi, base, e)
  {
    var p := Elem(e);
    PlacesMeans(b, abi, base, p);
    if exists l: nat :: IsArray(b, abi, base, l) && InArray(b, abi, base, l, p) {
      var l: nat :| IsArray(b, abi, base, l) && InArray(b, abi, base, l, p);
      if !Listed(b, abi, l, p) {
        var a: nat :| IsListed(b, abi, l, a) && Listed(b, abi, Target(b, abi, base, a), p);
        assert IsDict(b, abi, base, Target(b, abi, base, a));
      }
    }
    if IsArrayElement(b, abi, base, e) {
      var l: nat :| IsArray(b, abi, base, l) && IsListed(b, abi, l, e);
      assert InArray(b, abi, base, l, p);
    }
    if IsDictElement(b, abi, base, e) {
      var l: nat :| IsDict(b, abi, base, l) && IsListed(b, abi, l, e);
      DictInArray(b, abi, base, l, p);
    }
  }

  lemma {:induction false} DictInArray(b: Block, abi: Abi, base: nat, l: nat, p: Place)
    requires IsDict(b, abi, base, l) && Listed(b, abi, l, p)
    ensures exists a: nat :: IsArray(b, abi, base, a) && InArray(b, abi, base, a, p)
  {
    var a: nat, e: nat :|
      && IsArray(b, abi, base, a) && Load(b, a + abi.word, abi.word) == 2
      && IsListed(b, abi, a, e) && l == Target(b, abi, base, e);
    assert InArray(b, abi, base, a, p);
  }

  lemma {:induction false} HeaderInArray(b: Block, abi: Abi, base: nat, a: nat, l: nat)
    requires IsArray(b, abi, base, a) && InArray(b, abi, base, a, List(l))
    ensures a == l || IsDict(b, abi, base, l)
  {
    if a != l {
      var e: nat :| IsListed(b, abi, a, e) && Listed(b, abi, Target(b, abi, base, e), List(l));
      assert l == Target(b, abi, base, e);
    }
  }

  /** The list headers it meets are those of the arrays and of the dictionaries. */
  lemma {:induction false} ListMetIff(b: Block, abi: Abi, base: nat, l: nat)
    ensures List(l) in Places(b, abi, base) <==> IsArray(b, abi, base, l) || IsDict(b, abi, base, l)
  {
    var p := List(l);
    PlacesMeans(b, abi, base, p);
    if exists a: nat :: IsArray(b, abi, base, a) && InArray(b, abi, base, a, p) {
      var a: nat :| IsArray(b, abi, base, a) && InArray(b, abi, base, a, p);
      HeaderInArray(b, abi, base, a, l);
    }
    if IsArray(b, abi, base, l) {
      assert InArray(b, abi, base, l, p);
    }
    if IsDict(b, abi, base, l) {
      DictInArray(b, abi, base, l, p);
    }
  }

  /** Every pointer of a top element, of an array element and of an element of a dictionary in an array is moved from
      the old block to the same offset of the new one, null keys excepted. */
  lemma {:induction false} NestedPointersLand(b: Block, out: Block, abi: Abi, from: nat, to: nat, e: nat)
    requires WellFormed(b, abi, from) && Rebased(b, out, abi, from, to) && 0 < to && to + |b| < Limit(abi.ptr)
    requires IsTop(b, abi, e) || IsArrayElement(b, abi, from, e) || IsDictElement(b, abi, from, e)
    ensures var key, value := Load(b, e + abi.key, abi.ptr), Load(b, e + abi.key + abi.ptr, abi.ptr);
      && Load(out, e + abi.key + abi.ptr, abi.ptr) == value - from + to
      && Load(out, e + abi.key, abi.ptr) == (if key == 0 then 0 else key - from + to)
  {
    ElementMetIff(b, abi, from, e);
    PointersLand(b, out, abi, from, to, e);
    PointerWords(b, abi, e);
    PointerWords(out, abi, e);
  }

  lemma {:induction false} PointerWords(b: Block, abi: Abi, e: nat)
    ensures KeyPtr(b, abi, e) == Load(b, e + abi.key, abi.ptr)
    ensures ValuePtr(b, abi, e) == Load(b, e + abi.key + abi.ptr, abi.ptr)
  {
  }

  /** Every other byte behind base_addr is the old one. */
  lemma {:induction false} OtherBytesStay(b: Block, out: Block, abi: Abi, from: nat, to: nat, i: nat)
    requires WellFormed(b, abi, from) && Rebased(b, out, abi, from, to) && abi.ptr <= i < |b|
    requires forall e: nat :: e + abi.key <= i < e + abi.key + 2 * abi.ptr ==>
      !IsTop(b, abi, e) && !IsArrayElement(b, abi, from, e) && !IsDictElement(b, abi, from, e)
    ensures |out| == |b| && out[i] == b[i]
  {
    if Touched(Places(b, abi, from), abi, i) {
      var p :| p in Places(b, abi, from) && p.Elem? && InPointers(abi, p.at, i);
      ElementMetIff(b, abi, from, p.at);
      assert false;
    }
  }

  // ---- the search, and the offsets

  predicate SameAt(b: Block, at: nat, key: seq<Byte>, k: nat)
    requires k < |key|
  {
    at + k < |b| && b[at + k] == key[k] && key[k] != 0
  }

  /** The bytes from `at` on are those of the key, none of them NUL, and then a NUL or the end of the block. */
  predicate Spells(b: Block, at: nat, key: seq<Byte>) {
    && (forall k: nat :: k < |key| ==> SameAt(b, at, key, k))
    && (at + |key| < |b| ==> b[at + |key|] == 0)
  }

  lemma StringIff(b: Block, at: nat, key: seq<Byte>)
    ensures StringAt(b, at) == key <==> Spells(b, at, key)
  {
    StringIsSpelled(b, at);
    if Spells(b, at, key) {
      SpelledOnce(b, at, key, StringAt(b, at));
    }
  }

  lemma {:induction false} StringIsSpelled(b: Block, at: nat)
    ensures Spells(b, at, StringAt(b, at))
    decreases |b| - at
  {
    if at < |b| && b[at] != 0 {
      StringIsSpelled(b, at + 1);
      var key, rest := StringAt(b, at), StringAt(b, at + 1);
      forall k: nat | k < |key|
        ensures SameAt(b, at, key, k)
      {
        assert k > 0 ==> SameAt(b, at + 1, rest, k - 1);
      }
    }
  }

  lemma SpelledOnce(b: Block, at: nat, x: seq<Byte>, y: seq<Byte>)
    requires Spells(b, at, x) && Spells(b, at, y)
    ensures x == y
  {
    assert |x| < |y| ==> SameAt(b, at, y, |x|);
    assert |y| < |x| ==> SameAt(b, at, x, |y|);
    forall k: nat | k < |x| && k < |y|
      ensures x[k] == y[k]
    {
      assert SameAt(b, at, x, k) && SameAt(b, at, y, k);
    }
  }

  /** The key of top element i is the given string. */
  predicate Named(b: Block, abi: Abi, base: nat, i: nat, key: seq<Byte>) {
    var p := Load(b, Nth(abi, abi.ptr + 2 * abi.word, i) + abi.key, abi.ptr);
    Spells(b, if p < base then 0 else p - base, key)
  }

  predicate FirstNamed(b: Block, abi: Abi, base: nat, i: nat, key: seq<Byte>) {
    && i < Load(b, abi.ptr + abi.word, abi.word) && Named(b, abi, base, i, key)
    && forall j: nat :: j < i ==> !Named(b, abi, base, j, key)
  }

  lemma NamedIff(b: Block, abi: Abi, base: nat, i: nat, key: seq<Byte>)
    ensures HasKey(b, abi, base, key, abi.Header(), i) <==> Named(b, abi, base, i, key)
  {
    StringIff(b, KeyOffset(b, abi, base, Nth(abi, abi.ptr + 2 * abi.word, i)), key);
  }

  /** The search yields the value pointer and the value size, the second word, of the first top element of that name,
      and nothing if there is none. */
  lemma {:induction false} SearchIff(b: Block, abi: Abi, base: nat, key: seq<Byte>)
    ensures forall i: nat :: FirstNamed(b, abi, base, i, key) ==>
      var e := Nth(abi, abi.ptr + 2 * abi.word, i);
      Find(b, abi, base, key) == Found(Load(b, e + abi.key + abi.ptr, abi.ptr), Load(b, e + abi.word, abi.word))
    ensures (forall i: nat :: i < Load(b, abi.ptr + abi.word, abi.word) ==> !Named(b, abi, base, i, key)) ==>
      Find(b, abi, base, key) == NotFound
  {
    var n := TopCount(b, abi);
    forall i: nat
      ensures HasKey(b, abi, base, key, abi.Header(), i) <==> Named(b, abi, base, i, key)
    {
      NamedIff(b, abi, base, i, key);
    }
    if forall i: nat :: i < n ==> !Named(b, abi, base, i, key) {
      FindMisses(b, abi, base, key, abi.Header(), n);
    }
    forall i: nat | FirstNamed(b, abi, base, i, key)
      ensures var e := Nth(abi, abi.ptr + 2 * abi.word, i);
        Find(b, abi, base, key) == Found(Load(b, e + abi.key + abi.ptr, abi.ptr), Load(b, e + abi.word, abi.word))
    {
      FindHitsFirst(b, abi, base, key, abi.Header(), n, i);
    }
  }

  /** The offsets on LP64: base_addr at 0, count at 12, element i at 16 + 32 i; in a list, count at 0, type at 4,
      element j at 8 + 32 j; in an element, value_size at 4, value_type at 8, key at 16, value at 24. */
  lemma {:induction false} LP64Offsets(b: Block, i: nat, l: nat)
    ensures Nth(LP64, LP64.ptr + 2 * LP64.word, i) == 16 + 32 * i && Nth(LP64, l + 2 * LP64.word, i) == l + 8 + 32 * i
    ensures BaseAddr(b, LP64) == Load(b, 0, 8) && TopCount(b, LP64) == Load(b, 12, 4)
    ensures ListCount(b, LP64, l) == Load(b, l, 4) && ListType(b, LP64, l) == Load(b, l + 4, 4)
    ensures ValueSize(b, LP64, l) == Load(b, l + 4, 4) && Type(b, LP64, l) == Load(b, l + 8, 4)
    ensures KeyPtr(b, LP64, l) == Load(b, l + 16, 8) && ValuePtr(b, LP64, l) == Load(b, l + 24, 8)
  {
  }
}
