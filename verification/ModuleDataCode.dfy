/** Copying a policy's module data and moving its pointers into the copy. */
module ModuleDataCode {
  import opened Base
  import opened ModuleData

  lemma NextByte(before: seq<Byte>, rest: nat, n: nat)
    requires n > 0
    ensures before + Bytes(rest, n) == (before + [rest % 256]) + Bytes(rest / 256, n - 1)
  {
    assert Bytes(rest, n) == [rest % 256] + Bytes(rest / 256, n - 1);
  }

  /** A store of n bytes, little-endian. */
  method Store(mem: array<Byte>, at: nat, v: nat, n: nat)
    requires at + n <= mem.Length
    modifies mem
    ensures mem[..] == Put(old(mem[..]), at, Bytes(v, n))
  {
    ghost var b := mem[..];
    var i, rest := 0, v;
    while i < n
      invariant i <= n
      invariant forall j :: 0 <= j < mem.Length && !(at <= j < at + i) ==> mem[j] == b[j]
      invariant mem[at..at + i] + Bytes(rest, n - i) == Bytes(v, n)
    {
      ghost var before := mem[at..at + i];
      NextByte(before, rest, n - i);
      mem[at + i] := rest % 256;
      assert mem[at..at + i + 1] == before + [rest % 256];
      i, rest := i + 1, rest / 256;
    }
    assert mem[at..at + n] + [] == mem[at..at + n];
    forall j | 0 <= j < n
      ensures mem[at + j] == Bytes(v, n)[j]
    {
      assert mem[at + j] == mem[at..at + n][j];
    }
  }

  /** ptr -= from; ptr += to, on the pointer at the given offset, which gets the value v; uintptr_t arithmetic wraps. */
  method MovePointer(mem: array<Byte>, abi: Abi, from: nat, to: nat, at: nat, ghost v: nat)
    requires at + abi.ptr <= mem.Length && v == Moved(Load(mem[..], at, abi.ptr), from, to, abi)
    modifies mem
    ensures mem[..] == Put(old(mem[..]), at, Bytes(v, abi.ptr))
  {
    var ptr: int := Load(mem[..], at, abi.ptr);
    ptr := (ptr - from) % Limit(abi.ptr);
    ptr := (ptr + to) % Limit(abi.ptr);
    assert ptr == v;
    Store(mem, at, ptr, abi.ptr);
  }

  /** mmd_fixup_ele: the key only if there is one, the value always. */
  method FixupElement(mem: array<Byte>, abi: Abi, from: nat, to: nat, e: nat)
    requires e + abi.Element() <= mem.Length
    modifies mem
    ensures mem[..] == Fixed(old(mem[..]), abi, e, from, to)
  {
    FixupPair(mem, abi, from, to, e, MovedKey(KeyPtr(mem[..], abi, e), from, to, abi),
        Moved(ValuePtr(mem[..], abi, e), from, to, abi));
  }

  method FixupPair(mem: array<Byte>, abi: Abi, from: nat, to: nat, e: nat, ghost k: nat, ghost v: nat)
    requires e + abi.Element() <= mem.Length
    requires k == MovedKey(KeyPtr(mem[..], abi, e), from, to, abi)
        && v == Moved(ValuePtr(mem[..], abi, e), from, to, abi)
    modifies mem
    ensures mem[..] == PutPair(old(mem[..]), e + abi.key, abi.ptr, k, v)
  {
    ghost var b := mem[..];
    FixupKey(mem, abi, from, to, e, k);
    ValueElsewhere(b, abi, e, k);
    MovePointer(mem, abi, from, to, e + abi.Value(), v);
  }

  lemma {:induction false} ValueElsewhere(b: Block, abi: Abi, e: nat, k: nat)
    requires e + abi.Element() <= |b|
    ensures Load(Put(b, e + abi.key, Bytes(k, abi.ptr)), e + abi.Value(), abi.ptr) == ValuePtr(b, abi, e)
  {
    PutElsewhere(b, e + abi.key, Bytes(k, abi.ptr), e + abi.Value(), abi.ptr);
  }

  method FixupKey(mem: array<Byte>, abi: Abi, from: nat, to: nat, e: nat, ghost k: nat)
    requires e + abi.Element() <= mem.Length && k == MovedKey(KeyPtr(mem[..], abi, e), from, to, abi)
    modifies mem
    ensures mem[..] == Put(old(mem[..]), e + abi.key, Bytes(k, abi.ptr))
  {
    if KeyPtr(mem[..], abi, e) != 0 {
      MovePointer(mem, abi, from, to, e + abi.key, k);
    } else {
      UnchangedPointer(mem[..], e + abi.key, abi.ptr);
    }
  }

  lemma UnchangedPointer(b: Block, at: nat, n: nat)
    requires at + n <= |b|
    ensures Put(b, at, Bytes(Load(b, at, n), n)) == b
  {
    BytesOfLoad(b, at, n);
    assert forall j :: at <= j < at + n ==> b[j] == b[at..at + n][j - at];
  }

  /** Structures that do not overlap and lie in the block, with all pointers into it. */
  predicate Sound(orig: Block, all: seq<Place>, abi: Abi, base: nat) {
    Apart(all, abi) && forall p :: p in all ==> PlaceOk(orig, abi, base, p)
  }

  /** Of all places, those in done are handled and those in rest still have to be. */
  ghost predicate Job(orig: Block, cur: Block, all: seq<Place>, done: seq<Place>, rest: seq<Place>, abi: Abi,
      from: nat, to: nat)
  {
    done + rest == all && Relocated(orig, cur, done, abi, from, to)
  }

  lemma {:induction false} NextIsApart(all: seq<Place>, done: seq<Place>, p: Place, rest: seq<Place>, abi: Abi)
    requires Apart(all, abi) && done + ([p] + rest) == all
    ensures p in all && ApartFrom(done, p, abi) && forall q :: q in done ==> q in all
  {
    assert all[|done|] == p;
    forall q | q in done
      ensures Disjoint(q, p, abi)
    {
      var i :| 0 <= i < |done| && done[i] == q;
      assert all[i] == q;
    }
  }

  lemma Regroup(a: seq<Place>, b: seq<Place>, c: seq<Place>)
    ensures a + (b + c) == (a + b) + c
  {
  }

  lemma {:induction false} JobElement(orig: Block, cur: Block, all: seq<Place>, done: seq<Place>, e: nat,
      rest: seq<Place>, abi: Abi, from: nat, to: nat)
    requires Sound(orig, all, abi, from) && Job(orig, cur, all, done, [Elem(e)] + rest, abi, from, to)
    ensures e + abi.Element() <= |orig| == |cur|
    ensures Job(orig, Fixed(cur, abi, e, from, to), all, done + [Elem(e)], rest, abi, from, to)
  {
    NextIsApart(all, done, Elem(e), rest, abi);
    RelocatedStep(orig, cur, done, abi, e, from, to);
    Regroup(done, [Elem(e)], rest);
  }

  lemma {:induction false} JobList(orig: Block, cur: Block, all: seq<Place>, done: seq<Place>, l: nat, rest: seq<Place>,
                abi: Abi, from: nat, to: nat)
    requires Sound(orig, all, abi, from) && Job(orig, cur, all, done, [List(l)] + rest, abi, from, to)
    ensures l + abi.List() <= |orig| == |cur|
    ensures ListCount(cur, abi, l) == ListCount(orig, abi, l) && ListType(cur, abi, l) == ListType(orig, abi, l)
    ensures Job(orig, cur, all, done + [List(l)], rest, abi, from, to)
  {
    NextIsApart(all, done, List(l), rest, abi);
    RelocatedList(orig, cur, done, abi, l, from, to);
    Regroup(done, [List(l)], rest);
  }

  /** What the traversal reads from an element it has just handled. */
  lemma {:induction false} JobReads(orig: Block, cur: Block, all: seq<Place>, done: seq<Place>, rest: seq<Place>,
                 abi: Abi, from: nat, to: nat, e: nat)
    requires Sound(orig, all, abi, from) && Job(orig, cur, all, done, rest, abi, from, to)
    requires Elem(e) in done && to + |orig| < Limit(abi.ptr)
    ensures Type(cur, abi, e) == Type(orig, abi, e)
    ensures ValuePtr(cur, abi, e) == to + ValueOffset(orig, abi, from, e)
  {
    assert Elem(e) in all;
    ApartPrefix(done, rest, abi);
    HeadKept(orig, cur, done, abi, e, abi.ValueType());
    MovedInto(ValuePtr(orig, abi, e), from, to, |orig|, abi);
  }

  lemma {:induction false} ApartPrefix(a: seq<Place>, b: seq<Place>, abi: Abi)
    requires Apart(a + b, abi)
    ensures Apart(a, abi)
  {
    forall i, j | 0 <= i < j < |a|
      ensures Disjoint(a[i], a[j], abi)
    {
      assert (a + b)[i] == a[i] && (a + b)[j] == a[j];
    }
  }

  /** One element, with the bookkeeping of what is done. */
  method FixupOne(mem: array<Byte>, abi: Abi, from: nat, to: nat, e: nat,
                  ghost orig: Block, ghost all: seq<Place>, ghost done: seq<Place>, ghost rest: seq<Place>)
    requires Sound(orig, all, abi, from)
    requires Job(orig, mem[..], all, done, [Elem(e)] + rest, abi, from, to)
    modifies mem
    ensures Job(orig, mem[..], all, done + [Elem(e)], rest, abi, from, to)
  {
    JobElement(orig, mem[..], all, done, e, rest, abi, from, to);
    FixupElement(mem, abi, from, to, e);
  }

  lemma {:induction false} ElementsSplit(abi: Abi, at: nat, k: nat, past: seq<Place>, rest: seq<Place>)
    requires k > 0
    ensures Elements(abi, at, k) + rest == [Elem(at)] + (Elements(abi, at + abi.Element(), k - 1) + rest)
    ensures past + Elements(abi, at, k) == (past + [Elem(at)]) + Elements(abi, at + abi.Element(), k - 1)
  {
  }

  lemma NothingLeft(past: seq<Place>, rest: seq<Place>)
    ensures past + [] == past && [] + rest == rest
  {
  }

  /** The innermost loop: the elements of a dictionary. */
  method FixupElements(mem: array<Byte>, abi: Abi, from: nat, to: nat, s: nat, count: nat,
                       ghost orig: Block, ghost all: seq<Place>, ghost done: seq<Place>, ghost rest: seq<Place>)
    requires Sound(orig, all, abi, from)
    requires Job(orig, mem[..], all, done, Elements(abi, s, count) + rest, abi, from, to)
    modifies mem
    ensures Job(orig, mem[..], all, done + Elements(abi, s, count), rest, abi, from, to)
  {
    var at: nat, k: nat := s, 0;
    ghost var past: seq<Place> := done;
    while k < count
      invariant k <= count
      invariant Job(orig, mem[..], all, past, Elements(abi, at, count - k) + rest, abi, from, to)
      invariant past + Elements(abi, at, count - k) == done + Elements(abi, s, count)
    {
      ElementsSplit(abi, at, count - k, past, rest);
      FixupOne(mem, abi, from, to, at, orig, all, past, Elements(abi, at + abi.Element(), count - k - 1) + rest);
      past := past + [Elem(at)];
      at, k := at + abi.Element(), k + 1;
    }
    NothingLeft(past, rest);
  }

  /** The dictionary that an array element just handled points to. */
  method FixupDict(mem: array<Byte>, abi: Abi, from: nat, to: nat, a: nat,
                   ghost orig: Block, ghost all: seq<Place>, ghost done: seq<Place>, ghost rest: seq<Place>)
    requires Sound(orig, all, abi, from)
    requires to + |orig| < Limit(abi.ptr) && Elem(a) in done
    requires Job(orig, mem[..], all, done, DictPlaces(orig, abi, from, a) + rest, abi, from, to)
    modifies mem
    ensures Job(orig, mem[..], all, done + DictPlaces(orig, abi, from, a), rest, abi, from, to)
  {
    ghost var elems := Elements(abi, ValueOffset(orig, abi, from, a) + abi.List(),
                                ListCount(orig, abi, ValueOffset(orig, abi, from, a)));
    JobReads(orig, mem[..], all, done, DictPlaces(orig, abi, from, a) + rest, abi, from, to, a);
    var dict := ValuePtr(mem[..], abi, a) - to;
    Regroup([List(dict)], elems, rest);
    JobList(orig, mem[..], all, done, dict, elems + rest, abi, from, to);
    FixupElements(mem, abi, from, to, dict + abi.List(), ListCount(mem[..], abi, dict), orig, all,
                  done + [List(dict)], rest);
    Regroup(done, [List(dict)], elems);
  }

  /** An array element and its dictionary, if it has one. */
  function ArrayElement(b: Block, abi: Abi, base: nat, a: nat, dicts: bool): seq<Place> {
    [Elem(a)] + if dicts then DictPlaces(b, abi, base, a) else []
  }

  lemma {:induction false} ArraySplit(b: Block, abi: Abi, base: nat, at: nat, k: nat, dicts: bool, past: seq<Place>,
      rest: seq<Place>)
    requires k > 0
    ensures ArrayPlaces(b, abi, base, at, k, dicts) + rest
         == ArrayElement(b, abi, base, at, dicts) + (ArrayPlaces(b, abi, base, at + abi.Element(), k - 1, dicts) + rest)
    ensures past + ArrayPlaces(b, abi, base, at, k, dicts)
         == (past + ArrayElement(b, abi, base, at, dicts)) + ArrayPlaces(b, abi, base, at + abi.Element(), k - 1, dicts)
  {
    var dict := if dicts then DictPlaces(b, abi, base, at) else [];
    var later := ArrayPlaces(b, abi, base, at + abi.Element(), k - 1, dicts);
    assert ArrayPlaces(b, abi, base, at, k, dicts) == [Elem(at)] + dict + later;
  }

  method FixupArrayElement(mem: array<Byte>, abi: Abi, from: nat, to: nat, a: nat, dicts: bool,
                           ghost orig: Block, ghost all: seq<Place>, ghost done: seq<Place>, ghost rest: seq<Place>)
    requires Sound(orig, all, abi, from)
    requires to + |orig| < Limit(abi.ptr)
    requires Job(orig, mem[..], all, done, ArrayElement(orig, abi, from, a, dicts) + rest, abi, from, to)
    modifies mem
    ensures Job(orig, mem[..], all, done + ArrayElement(orig, abi, from, a, dicts), rest, abi, from, to)
  {
    ghost var dict := if dicts then DictPlaces(orig, abi, from, a) else [];
    Regroup([Elem(a)], dict, rest);
    Regroup(done, [Elem(a)], dict);
    FixupOne(mem, abi, from, to, a, orig, all, done, dict + rest);
    if dicts {
      FixupDict(mem, abi, from, to, a, orig, all, done + [Elem(a)], rest);
    } else {
      NothingLeft(done + [Elem(a)], rest);
    }
  }

  /** The middle loop: the elements of an array. */
  method FixupArrayElements(mem: array<Byte>, abi: Abi, from: nat, to: nat, s: nat, count: nat, dicts: bool,
                            ghost orig: Block, ghost all: seq<Place>, ghost done: seq<Place>, ghost rest: seq<Place>)
    requires Sound(orig, all, abi, from)
    requires to + |orig| < Limit(abi.ptr)
    requires Job(orig, mem[..], all, done, ArrayPlaces(orig, abi, from, s, count, dicts) + rest, abi, from, to)
    modifies mem
    ensures Job(orig, mem[..], all, done + ArrayPlaces(orig, abi, from, s, count, dicts), rest, abi, from, to)
  {
    var at: nat, j: nat := s, 0;
    ghost var past: seq<Place> := done;
    while j < count
      invariant j <= count
      invariant Job(orig, mem[..], all, past, ArrayPlaces(orig, abi, from, at, count - j, dicts) + rest, abi, from, to)
      invariant past + ArrayPlaces(orig, abi, from, at, count - j, dicts)
          == done + ArrayPlaces(orig, abi, from, s, count, dicts)
    {
      ArraySplit(orig, abi, from, at, count - j, dicts, past, rest);
      FixupArrayElement(mem, abi, from, to, at, dicts, orig, all, past,
                        ArrayPlaces(orig, abi, from, at + abi.Element(), count - j - 1, dicts) + rest);
      past := past + ArrayElement(orig, abi, from, at, dicts);
      at, j := at + abi.Element(), j + 1;
    }
    NothingLeft(past, rest);
  }

  /** The array whose header is at arr. */
  method FixupArray(mem: array<Byte>, abi: Abi, from: nat, to: nat, arr: nat,
                    ghost orig: Block, ghost all: seq<Place>, ghost done: seq<Place>, ghost rest: seq<Place>)
    requires Sound(orig, all, abi, from) && to + |orig| < Limit(abi.ptr)
    requires Job(orig, mem[..], all, done, ArrayAt(orig, abi, from, arr) + rest, abi, from, to)
    modifies mem
    ensures Job(orig, mem[..], all, done + ArrayAt(orig, abi, from, arr), rest, abi, from, to)
  {
    ghost var elems := ArrayPlaces(orig, abi, from, arr + abi.List(), ListCount(orig, abi, arr),
                                   ListType(orig, abi, arr) == MAC_DATA_TYPE_DICT);
    Regroup([List(arr)], elems, rest);
    JobList(orig, mem[..], all, done, arr, elems + rest, abi, from, to);
    FixupArrayElements(mem, abi, from, to, arr + abi.List(), ListCount(mem[..], abi, arr),
                       ListType(mem[..], abi, arr) == MAC_DATA_TYPE_DICT, orig, all, done + [List(arr)], rest);
    Regroup(done, [List(arr)], elems);
  }

  /** The array that an element just handled points to, if it is of array type. */
  method FixupNested(mem: array<Byte>, abi: Abi, from: nat, to: nat, e: nat,
                     ghost orig: Block, ghost all: seq<Place>, ghost done: seq<Place>, ghost rest: seq<Place>)
    requires Sound(orig, all, abi, from)
    requires to + |orig| < Limit(abi.ptr) && Elem(e) in done
    requires Job(orig, mem[..], all, done, NestedPlaces(orig, abi, from, e) + rest, abi, from, to)
    modifies mem
    ensures Job(orig, mem[..], all, done + NestedPlaces(orig, abi, from, e), rest, abi, from, to)
  {
    JobReads(orig, mem[..], all, done, NestedPlaces(orig, abi, from, e) + rest, abi, from, to, e);
    if Type(mem[..], abi, e) == MAC_DATA_TYPE_ARRAY {
      var arr := ValuePtr(mem[..], abi, e) - to;
      FixupArray(mem, abi, from, to, arr, orig, all, done, rest);
    } else {
      NothingLeft(done, rest);
    }
  }

  lemma {:induction false} TopSplit(b: Block, abi: Abi, base: nat, at: nat, k: nat, past: seq<Place>)
    requires k > 0
    ensures TopPlaces(b, abi, base, at, k)
         == ([Elem(at)] + NestedPlaces(b, abi, base, at)) + TopPlaces(b, abi, base, at + abi.Element(), k - 1)
    ensures past + TopPlaces(b, abi, base, at, k)
         == (past + ([Elem(at)] + NestedPlaces(b, abi, base, at))) + TopPlaces(b, abi, base, at + abi.Element(), k - 1)
  {
  }

  method FixupTopElement(mem: array<Byte>, abi: Abi, from: nat, to: nat, e: nat,
                         ghost orig: Block, ghost all: seq<Place>, ghost done: seq<Place>, ghost rest: seq<Place>)
    requires Sound(orig, all, abi, from)
    requires to + |orig| < Limit(abi.ptr)
    requires Job(orig, mem[..], all, done, ([Elem(e)] + NestedPlaces(orig, abi, from, e)) + rest, abi, from, to)
    modifies mem
    ensures Job(orig, mem[..], all, done + ([Elem(e)] + NestedPlaces(orig, abi, from, e)), rest, abi, from, to)
  {
    ghost var nested := NestedPlaces(orig, abi, from, e);
    Regroup([Elem(e)], nested, rest);
    Regroup(done, [Elem(e)], nested);
    FixupOne(mem, abi, from, to, e, orig, all, done, nested + rest);
    FixupNested(mem, abi, from, to, e, orig, all, done + [Elem(e)], rest);
  }

  /** The first of n elements from e on, with everything it points to. */
  method FixupTopFirst(mem: array<Byte>, abi: Abi, from: nat, to: nat, e: nat, ghost n: nat,
                       ghost orig: Block, ghost all: seq<Place>, ghost done: seq<Place>)
    requires Sound(orig, all, abi, from) && to + |orig| < Limit(abi.ptr) && n > 0
    requires Job(orig, mem[..], all, done, TopPlaces(orig, abi, from, e, n), abi, from, to)
    modifies mem
    ensures Job(orig, mem[..], all, done + ([Elem(e)] + NestedPlaces(orig, abi, from, e)),
                TopPlaces(orig, abi, from, e + abi.Element(), n - 1), abi, from, to)
  {
    TopSplit(orig, abi, from, e, n, done);
    FixupTopElement(mem, abi, from, to, e, orig, all, done, TopPlaces(orig, abi, from, e + abi.Element(), n - 1));
  }

  /** The outer loop: the elements of the module data. */
  method FixupTop(mem: array<Byte>, abi: Abi, from: nat, to: nat, s: nat, count: nat, ghost orig: Block,
      ghost all: seq<Place>)
    requires to + |orig| < Limit(abi.ptr) && Sound(orig, all, abi, from)
    requires Job(orig, mem[..], all, [], TopPlaces(orig, abi, from, s, count), abi, from, to)
    modifies mem
    ensures exists past :: Job(orig, mem[..], all, past, [], abi, from, to)
  {
    var at: nat, i: nat := s, 0;
    ghost var past: seq<Place>, left: nat := [], count;
    while i < count
      invariant i <= count && left == count - i
      invariant Job(orig, mem[..], all, past, TopPlaces(orig, abi, from, at, left), abi, from, to)
    {
      FixupTopFirst(mem, abi, from, to, at, left, orig, all, past);
      past, left := past + ([Elem(at)] + NestedPlaces(orig, abi, from, at)), left - 1;
      at, i := at + abi.Element(), i + 1;
    }
  }

  lemma {:induction false} JobBegins(orig: Block, all: seq<Place>, abi: Abi, from: nat, to: nat)
    ensures Job(orig, orig, all, [], all, abi, from, to)
  {
    NothingLeft([], all);
  }

  lemma {:induction false} JobEnds(orig: Block, cur: Block, all: seq<Place>, past: seq<Place>, abi: Abi, from: nat,
      to: nat)
    requires Job(orig, cur, all, past, [], abi, from, to)
    ensures Relocated(orig, cur, all, abi, from, to)
  {
    NothingLeft(past, []);
  }

  /** mac_policy_fixup_mmd_list: mem is the copy, at address to, of a block that was built for its base_addr. */
  method FixupModuleData(mem: array<Byte>, abi: Abi, to: nat)
    requires abi.Header() <= mem.Length && WellFormed(mem[..], abi, BaseAddr(mem[..], abi))
    requires to + mem.Length < Limit(abi.ptr)
    modifies mem
    ensures Rebased(old(mem[..]), mem[..], abi, BaseAddr(old(mem[..]), abi), to)
  {
    ghost var orig := mem[..];
    var from := BaseAddr(mem[..], abi);
    JobBegins(orig, Places(orig, abi, from), abi, from, to);
    FixupTop(mem, abi, from, to, abi.Header(), TopCount(mem[..], abi), orig, Places(orig, abi, from));
    ghost var mid := mem[..];
    ghost var past :| Job(orig, mid, Places(orig, abi, from), past, [], abi, from, to);
    JobEnds(orig, mid, Places(orig, abi, from), past, abi, from, to);
    Store(mem, 0, to, abi.ptr);
    RebasedByPut(orig, mid, abi, from, to);
  }

  lemma {:induction false} PointersBehindBase(mid: Block, abi: Abi, e: nat, to: nat)
    requires abi.Header() <= e && e + abi.Element() <= |mid|
    ensures KeyPtr(Put(mid, 0, Bytes(to, abi.ptr)), abi, e) == KeyPtr(mid, abi, e)
    ensures ValuePtr(Put(mid, 0, Bytes(to, abi.ptr)), abi, e) == ValuePtr(mid, abi, e)
  {
    PutElsewhere(mid, 0, Bytes(to, abi.ptr), e + abi.key, abi.ptr);
    PutElsewhere(mid, 0, Bytes(to, abi.ptr), e + abi.Value(), abi.ptr);
  }

  lemma {:induction false} RebasedByPut(b: Block, mid: Block, abi: Abi, from: nat, to: nat)
    requires WellFormed(b, abi, from) && Relocated(b, mid, Places(b, abi, from), abi, from, to) && to < Limit(abi.ptr)
    ensures Rebased(b, Put(mid, 0, Bytes(to, abi.ptr)), abi, from, to)
  {
    var out, places := Put(mid, 0, Bytes(to, abi.ptr)), Places(b, abi, from);
    PutLoad(mid, 0, to, abi.ptr);
    forall e: nat | Elem(e) in places
      ensures KeyPtr(out, abi, e) == MovedKey(KeyPtr(b, abi, e), from, to, abi)
      ensures ValuePtr(out, abi, e) == Moved(ValuePtr(b, abi, e), from, to, abi)
    {
      assert PlaceOk(b, abi, from, Elem(e));
      PointersBehindBase(mid, abi, e, to);
    }
  }

  /** What registration does with module data: copy the block to a fresh one at address to and fix it up. */
  method CopyModuleData(mmd: array<Byte>, abi: Abi, to: nat) returns (mem: array<Byte>)
    requires abi.Header() <= mmd.Length && WellFormed(mmd[..], abi, BaseAddr(mmd[..], abi))
    requires to + mmd.Length < Limit(abi.ptr)
    ensures fresh(mem) && Rebased(mmd[..], mem[..], abi, BaseAddr(mmd[..], abi), to)
  {
    mem := new Byte[mmd.Length](i requires 0 <= i < mmd.Length reads mmd => mmd[i]);
    assert mem[..] == mmd[..];
    FixupModuleData(mem, abi, to);
  }

  /** mac_find_module_data; base is the address of the block. */
  method FindModuleData(mmd: array?<Byte>, abi: Abi, base: nat, key: seq<Byte>) returns (r: Lookup)
    requires mmd != null ==> Readable(mmd[..], abi, base)
    ensures r == if mmd == null then NotFound else Find(mmd[..], abi, base, key)
  {
    if mmd != null {
      var b := mmd[..];
      var at: nat, i: nat := abi.Header(), 0;
      while i < TopCount(b, abi)
        invariant i <= TopCount(b, abi)
        invariant Find(b, abi, base, key) == FindFrom(b, abi, base, key, at, TopCount(b, abi) - i)
      {
        if StringAt(b, KeyOffset(b, abi, base, at)) == key {
          return Found(ValuePtr(b, abi, at), ValueSize(b, abi, at));
        }
        at, i := at + abi.Element(), i + 1;
      }
    }
    r := NotFound;
  }
}
