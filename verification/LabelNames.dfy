/** Which policies a label request reaches, by the names of the elements, and which error comes first. */
module LabelNames {
  import opened Base
  import opened LabelText
  import opened LabelPrint
  import opened LabelCode
  import opened MacError

  /** The name begins with the mark that makes it optional. */
  predicate Marked(name: string) {
    name != "" && name[0] == '?'
  }

  /** The text is w, apart from a mark. */
  predicate Bears(text: string, w: string) {
    text == "?" + w || (text == w && !Marked(text))
  }

  /** A request reaches an element and prints its label under the name w: "*" reaches every element without a mark, and
      any other request the elements that have its name, marks on either side left out. */
  predicate Reaches(piece: string, element: string, w: string) {
    if piece == "*" then !Marked(element) && w == element else Bears(piece, w) && Bears(element, w)
  }

  lemma BareIff(text: string, w: string)
    ensures WithoutMark(text) == w <==> Bears(text, w)
  {
    if Marked(text) {
      assert text == "?" + text[1..];
    }
    assert ("?" + w)[1..] == w;
  }

  lemma ReachesIff(piece: string, element: string, w: string)
    ensures NameFor(RequestFor(piece), element) == Some(w) <==> Reaches(piece, element, w)
  {
    BareIff(piece, w);
    BareIff(element, w);
  }

  /** Only a request without a mark, and other than "*", insists on a label. */
  lemma InsistsIff(fw: Framework, piece: string)
    ensures Answered(fw, RequestFor(piece))
       <==> piece == "*" || Marked(piece) || PairsOf(RequestVisits(fw, RequestFor(piece))) != []
  {
  }

  // ---- who is asked to print, and in which order

  lemma {:induction false} ListenersInOrder(fw: Framework, element: string, w: string, a: seq<nat>, b: seq<nat>)
    ensures ListenerVisits(fw, element, w, a + b)
         == ListenerVisits(fw, element, w, a) + ListenerVisits(fw, element, w, b)
    decreases |a|
  {
    if a == [] {
      assert a + b == b;
    } else {
      assert (a + b)[1..] == a[1..] + b;
      ListenersInOrder(fw, element, w, a[1..], b);
    }
  }

  /** A listener is asked with the full name of the element, and its answer stands under the name without a mark. */
  lemma OneListener(fw: Framework, element: string, w: string, h: nat)
    ensures ListenerVisits(fw, element, w, [h])
         == var p := fw.externalizer(h, element); if p.Some? then [Visit(w, p.value)] else []
  {
    assert [h][1..] == [];
  }

  lemma {:induction false} ElementsInOrder(fw: Framework, req: Request, a: seq<Element>, b: seq<Element>)
    ensures ListVisits(fw, req, a + b) == ListVisits(fw, req, a) + ListVisits(fw, req, b)
    decreases |a|
  {
    if a == [] {
      assert a + b == b;
    } else {
      assert (a + b)[1..] == a[1..] + b;
      ElementsInOrder(fw, req, a[1..], b);
    }
  }

  lemma OneElement(fw: Framework, piece: string, e: Element)
    ensures forall w :: Reaches(piece, e.name, w) ==>
      ListVisits(fw, RequestFor(piece), [e]) == ListenerVisits(fw, e.name, w, e.listeners)
    ensures (forall w :: !Reaches(piece, e.name, w)) ==> ListVisits(fw, RequestFor(piece), [e]) == []
  {
    var name := NameFor(RequestFor(piece), e.name);
    assert [e][1..] == [];
    forall w
      ensures name == Some(w) <==> Reaches(piece, e.name, w)
    {
      ReachesIff(piece, e.name, w);
    }
  }

  /** The elements a request goes through: the static ones, then the dynamic ones if there are dynamic policies. */
  function Elements(fw: Framework): seq<Element> {
    fw.statics + (if fw.busy then fw.dynamics else [])
  }

  lemma StaticFirst(fw: Framework, req: Request)
    ensures RequestVisits(fw, req) == ListVisits(fw, req, Elements(fw))
  {
    ElementsInOrder(fw, req, fw.statics, if fw.busy then fw.dynamics else []);
  }

  /** The visits of a request are the answers of those listeners of the elements it reaches that can print. */
  lemma VisitsIff(fw: Framework, piece: string, v: Visit)
    ensures v in RequestVisits(fw, RequestFor(piece)) <==> exists e, h :: Visited(fw, piece, e, h, v)
  {
    StaticFirst(fw, RequestFor(piece));
    ListVisitsAre(fw, piece, Elements(fw), v);
    if e, h :| Visited(fw, piece, e, h, v) {
      assert InList(fw, piece, Elements(fw), e, h, v);
    }
    if e, h :| InList(fw, piece, Elements(fw), e, h, v) {
      assert Visited(fw, piece, e, h, v);
    }
  }

  ghost predicate Visited(fw: Framework, piece: string, e: Element, h: nat, v: Visit) {
    InList(fw, piece, Elements(fw), e, h, v)
  }

  predicate InList(fw: Framework, piece: string, list: seq<Element>, e: Element, h: nat, v: Visit) {
    e in list && h in e.listeners && Reaches(piece, e.name, v.name) && fw.externalizer(h, e.name) == Some(v.printed)
  }

  lemma {:induction false} ListenerVisitsAre(fw: Framework, element: string, w: string, hs: seq<nat>, v: Visit)
    ensures v in ListenerVisits(fw, element, w, hs)
       <==> v.name == w && exists h :: h in hs && fw.externalizer(h, element) == Some(v.printed)
  {
    if hs != [] {
      ListenerVisitsAre(fw, element, w, hs[1..], v);
      assert forall h :: h in hs <==> h == hs[0] || h in hs[1..];
    }
  }

  lemma {:induction false} ListVisitsAre(fw: Framework, piece: string, list: seq<Element>, v: Visit)
    ensures v in ListVisits(fw, RequestFor(piece), list) <==> exists e, h :: InList(fw, piece, list, e, h, v)
  {
    if list != [] {
      var e0, rest := list[0], list[1..];
      ListVisitsAre(fw, piece, rest, v);
      ElementVisitsAre(fw, piece, e0, v);
      if e, h :| InList(fw, piece, rest, e, h, v) {
        assert InList(fw, piece, list, e, h, v);
      }
      if h :| InList(fw, piece, [e0], e0, h, v) {
        assert InList(fw, piece, list, e0, h, v);
      }
      if e, h :| InList(fw, piece, list, e, h, v) {
        assert InList(fw, piece, rest, e, h, v) || InList(fw, piece, [e0], e0, h, v);
      }
    }
  }

  lemma ElementVisitsAre(fw: Framework, piece: string, e: Element, v: Visit)
    ensures v in ElementVisits(fw, RequestFor(piece), e) <==> exists h :: InList(fw, piece, [e], e, h, v)
  {
    var name := NameFor(RequestFor(piece), e.name);
    ReachesIff(piece, e.name, v.name);
    if name.Some? {
      ListenerVisitsAre(fw, e.name, name.value, e.listeners, v);
      if v in ElementVisits(fw, RequestFor(piece), e) {
        var h :| h in e.listeners && fw.externalizer(h, e.name) == Some(v.printed);
        assert InList(fw, piece, [e], e, h, v);
      }
    }
  }

  // ---- who is asked to read

  lemma {:induction false} AbleAre(fw: Framework, hs: seq<nat>, n: nat, h: nat)
    requires n <= |hs|
    ensures h in Able(fw, hs, n) <==> h in hs[..n] && fw.hasInternalizer(h)
  {
    if n > 0 {
      AbleAre(fw, hs, n - 1, h);
      assert hs[..n] == hs[..n - 1] + [hs[n - 1]];
    }
  }

  predicate Takes(fw: Framework, list: seq<Element>, name: string, e: Element, h: nat) {
    e in list && Bears(e.name, name) && h in e.listeners && fw.hasInternalizer(h)
  }

  ghost predicate Taken(fw: Framework, list: seq<Element>, name: string, h: nat) {
    exists e :: Takes(fw, list, name, e, h)
  }

  lemma {:induction false} TargetsInAre(fw: Framework, list: seq<Element>, name: string, n: nat, h: nat)
    requires n <= |list|
    ensures h in TargetsIn(fw, list, name, n) <==> Taken(fw, list[..n], name, h)
  {
    if n > 0 {
      var m := n - 1;
      TargetsInAre(fw, list, name, m, h);
      LastTakes(fw, list, name, n, m, h);
      OneTarget(fw, list[m], name, h);
      assert TargetsIn(fw, list, name, n) == TargetsIn(fw, list, name, m) + TargetsOf(fw, list[m], name);
    } else {
      assert list[..n] == [] && TargetsIn(fw, list, name, n) == [];
    }
  }

  lemma {:induction false} OneTarget(fw: Framework, e: Element, name: string, h: nat)
    ensures h in TargetsOf(fw, e, name) <==> Takes(fw, [e], name, e, h)
  {
    BareIff(e.name, name);
    AbleAre(fw, e.listeners, |e.listeners|, h);
    assert e.listeners[..|e.listeners|] == e.listeners;
  }

  lemma {:induction false} LastTakes(fw: Framework, list: seq<Element>, name: string, n: nat, m: nat, h: nat)
    requires n == m + 1 && n <= |list|
    ensures Taken(fw, list[..n], name, h) <==> Taken(fw, list[..m], name, h) || Takes(fw, [list[m]], name, list[m], h)
  {
    var e0, before := list[m], list[..m];
    assert list[..n] == before + [e0];
    if e :| Takes(fw, before, name, e, h) {
      assert Takes(fw, list[..n], name, e, h);
    }
    if e :| Takes(fw, list[..n], name, e, h) {
      assert Takes(fw, before, name, e, h) || e == e0;
    }
    if Takes(fw, [e0], name, e0, h) {
      assert Takes(fw, list[..n], name, e0, h);
    }
  }

  /** The policies asked about a name are the listeners, able to read, of the elements that have it. */
  lemma TargetsIff(fw: Framework, name: string, h: nat)
    ensures h in Targets(fw, name) <==> exists e :: Takes(fw, Elements(fw), name, e, h)
  {
    var statics, dynamics := fw.statics, fw.dynamics;
    TargetsInAre(fw, statics, name, |statics|, h);
    TargetsInAre(fw, dynamics, name, |dynamics|, h);
    assert statics[..|statics|] == statics && dynamics[..|dynamics|] == dynamics;
    if e :| Takes(fw, Elements(fw), name, e, h) {
      assert Takes(fw, statics, name, e, h) || (fw.busy && Takes(fw, dynamics, name, e, h));
    }
    if e :| Takes(fw, statics, name, e, h) {
      assert Takes(fw, Elements(fw), name, e, h);
    }
    if fw.busy {
      if e :| Takes(fw, dynamics, name, e, h) {
        assert Takes(fw, Elements(fw), name, e, h);
      }
    }
  }

  lemma {:induction false} AbleInOrder(fw: Framework, a: seq<nat>, b: seq<nat>, n: nat)
    requires n <= |b|
    ensures Able(fw, a + b, |a| + n) == Able(fw, a, |a|) + Able(fw, b, n)
    decreases n
  {
    if n == 0 {
      AblePrefix(fw, a, b, |a|);
    } else {
      AbleInOrder(fw, a, b, n - 1);
      assert (a + b)[|a| + n - 1] == b[n - 1];
    }
  }

  lemma {:induction false} AblePrefix(fw: Framework, a: seq<nat>, b: seq<nat>, n: nat)
    requires n <= |a|
    ensures Able(fw, a + b, n) == Able(fw, a, n)
  {
    if n > 0 {
      AblePrefix(fw, a, b, n - 1);
    }
  }

  lemma {:induction false} TargetsInOrder(fw: Framework, a: seq<Element>, b: seq<Element>, name: string, n: nat)
    requires n <= |b|
    ensures TargetsIn(fw, a + b, name, |a| + n) == TargetsIn(fw, a, name, |a|) + TargetsIn(fw, b, name, n)
    decreases n
  {
    if n == 0 {
      TargetsPrefix(fw, a, b, name, |a|);
    } else {
      TargetsInOrder(fw, a, b, name, n - 1);
      assert (a + b)[|a| + n - 1] == b[n - 1];
      var one := TargetsOf(fw, b[n - 1], name);
      var before := TargetsIn(fw, a, name, |a|);
      assert TargetsIn(fw, b, name, n) == TargetsIn(fw, b, name, n - 1) + one;
      assert TargetsIn(fw, a + b, name, |a| + n) == TargetsIn(fw, a + b, name, |a| + n - 1) + one;
    }
  }

  lemma {:induction false} TargetsPrefix(fw: Framework, a: seq<Element>, b: seq<Element>, name: string, n: nat)
    requires n <= |a|
    ensures TargetsIn(fw, a + b, name, n) == TargetsIn(fw, a, name, n)
  {
    if n > 0 {
      TargetsPrefix(fw, a, b, name, n - 1);
    }
  }

  // ---- which error of printing comes first

  /** Visit k is the first to fail: no room is left, or the policy reports an error other than ENOENT. */
  predicate VisitFails(before: string, vs: seq<Visit>, size: nat, k: nat, error: int)
    requires k < |vs|
  {
    && (forall j :: 0 <= j < k ==> Passes(before, vs, size, j))
    && !Passes(before, vs, size, k)
    && error == if Room(before, vs, size, k) then vs[k].printed.error else -1
  }

  predicate Room(before: string, vs: seq<Visit>, size: nat, k: nat)
    requires k < |vs|
  {
    |Write(before, vs[..k])| + |vs[k].name| + |"/"| + |vs[k].printed.text| < size - 1
  }

  predicate Passes(before: string, vs: seq<Visit>, size: nat, k: nat)
    requires k < |vs|
  {
    Room(before, vs, size, k) && (vs[k].printed.error == 0 || vs[k].printed.error == ENOENT)
  }

  lemma {:induction false} VisitsErrorMeans(before: string, vs: seq<Visit>, size: nat)
    ensures VisitsError(before, vs, size) != 0 ==>
      exists k :: 0 <= k < |vs| && VisitFails(before, vs, size, k, VisitsError(before, vs, size))
    decreases |vs|
  {
    if vs != [] && VisitsError(before, vs, size) != 0 {
      var e := VisitsError(before, vs, size);
      assert vs[..0] == [] && Write(before, vs[..0]) == before;
      if VisitError(|before|, vs[0], size) != 0 {
        assert VisitFails(before, vs, size, 0, e);
      } else {
        var next, rest := WriteOne(before, vs[0]), vs[1..];
        VisitsErrorMeans(next, rest, size);
        var k :| 0 <= k < |rest| && VisitFails(next, rest, size, k, e);
        forall j | 0 <= j <= k
          ensures Room(before, vs, size, j + 1) == Room(next, rest, size, j)
        {
          LaterRoom(before, vs, size, j);
        }
        forall j | 0 <= j < k + 1
          ensures Passes(before, vs, size, j)
        {
          assert j > 0 ==> Passes(next, rest, size, j - 1);
        }
        assert VisitFails(before, vs, size, k + 1, e);
      }
    }
  }

  lemma LaterRoom(before: string, vs: seq<Visit>, size: nat, j: nat)
    requires j + 1 < |vs|
    ensures Room(before, vs, size, j + 1) == Room(WriteOne(before, vs[0]), vs[1..], size, j)
  {
    assert vs[..j + 1] == [vs[0]] + vs[1..][..j];
    assert vs[..j + 1][1..] == vs[1..][..j];
  }

  /** Printing a list of requests fails with the error of the first request that fails, after what the earlier ones have
      left in the buffer. */
  lemma {:induction false} PiecesErrorMeans(fw: Framework, before: string, pieces: seq<string>, size: nat)
    ensures PiecesError(fw, before, pieces, size) != 0 ==>
      exists k :: 0 <= k < |pieces| && PieceFails(fw, before, pieces, size, k, PiecesError(fw, before, pieces, size))
    decreases |pieces|
  {
    if pieces != [] && PiecesError(fw, before, pieces, size) != 0 {
      var error := PiecesError(fw, before, pieces, size);
      PieceFirst(fw, before, pieces, size);
      if PieceError(fw, before, pieces, size, 0) != 0 {
        assert PieceFails(fw, before, pieces, size, 0, error);
      } else {
        var next, rest := Write(before, RequestVisits(fw, RequestFor(pieces[0]))), pieces[1..];
        PiecesErrorMeans(fw, next, rest, size);
        var k :| 0 <= k < |rest| && PieceFails(fw, next, rest, size, k, error);
        forall j | 0 <= j <= k
          ensures PieceError(fw, before, pieces, size, j + 1) == PieceError(fw, next, rest, size, j)
        {
          PieceLater(fw, before, pieces, size, j);
        }
        forall j | 0 <= j < k + 1
          ensures PieceError(fw, before, pieces, size, j) == 0
        {
          assert j > 0 ==> PieceError(fw, next, rest, size, j - 1) == 0;
        }
        assert PieceFails(fw, before, pieces, size, k + 1, error);
      }
    }
  }

  function PieceError(fw: Framework, before: string, pieces: seq<string>, size: nat, k: nat): int
    requires k < |pieces|
  {
    RequestError(fw, Write(before, AllVisits(fw, pieces[..k])), RequestFor(pieces[k]), size)
  }

  ghost predicate PieceFails(fw: Framework, before: string, pieces: seq<string>, size: nat, k: nat, error: int)
    requires k < |pieces|
  {
    (forall j :: 0 <= j < k ==> PieceError(fw, before, pieces, size, j) == 0)
    && error == PieceError(fw, before, pieces, size, k) != 0
  }

  lemma PieceFirst(fw: Framework, before: string, pieces: seq<string>, size: nat)
    requires pieces != []
    ensures PieceError(fw, before, pieces, size, 0) == RequestError(fw, before, RequestFor(pieces[0]), size)
  {
    assert pieces[..0] == [] && Write(before, AllVisits(fw, [])) == before;
  }

  lemma PieceLater(fw: Framework, before: string, pieces: seq<string>, size: nat, j: nat)
    requires j + 1 < |pieces|
    ensures PieceError(fw, before, pieces, size, j + 1)
         == PieceError(fw, Write(before, RequestVisits(fw, RequestFor(pieces[0]))), pieces[1..], size, j)
  {
    assert pieces[..j + 1][1..] == pieces[1..][..j];
    WriteConcat(before, RequestVisits(fw, RequestFor(pieces[0])), AllVisits(fw, pieces[1..][..j]));
  }
}
