/** The whole-forest effect of the three ways in which delete_node rewires a tree. */
module Removal {
  import opened Base
  import opened Lzss
  import opened SearchTree
  import opened TreeEdits
  import opened Forest
  import opened Descent

  /** Every node of a tree can be exposed by a context. */
  lemma {:induction false} Locate(outer: Ctx, t: Tree, p: int) returns (ctx: Ctx, a: Tree, b: Tree)
    requires p in Inorder(t)
    ensures Plug(ctx, Node(a, p, b)) == Plug(outer, t)
    decreases t
  {
    match t
    case Node(l, i, r) =>
      if i == p {
        ctx, a, b := outer, l, r;
      } else if p in Inorder(l) {
        ctx, a, b := Locate(InLeft(outer, i, r), l, p);
      } else {
        ctx, a, b := Locate(InRight(outer, l, i), r, p);
      }
  }

  /** p is a live node; (ctx, a, b) is what surrounds it in its tree. */
  ghost predicate Exposed(k: Links, text: Text, trees: seq<Tree>, ctx: Ctx, a: Tree, p: int, b: Tree)
    requires IsNode(p)
  {
    && WellFormed(k, text, trees)
    && trees[text[p]] == Plug(ctx, Node(a, p, b))
  }

  function Around3(ctx: Ctx, a: Tree, p: int, b: Tree): seq<int> {
    Before(ctx) + Inorder(Node(a, p, b)) + After(ctx)
  }

  lemma ExposedFacts(k: Links, text: Text, trees: seq<Tree>, ctx: Ctx, a: Tree, p: int, b: Tree)
    requires IsNode(p) && Exposed(k, text, trees, ctx, a, p, b)
    ensures k.Sized() && Column(k, text, p, Around3(ctx, a, p, b))
    ensures Represents(k, Plug(ctx, Node(a, p, b)), k.r[Root(text[p])], Root(text[p]))
  {
    InorderPlug(ctx, Node(a, p, b));
    assert TreeOk(k, text, trees[text[p]], text[p]);
    SortedNoDup(text, Around3(ctx, a, p, b));
  }

  /** Only the nodes of s and the root of the tree for c were touched. */
  ghost predicate Inside(k: Links, k': Links, s: seq<int>, c: Byte)
    requires k.Sized() && k'.Sized()
  {
    && (forall i :: IsNode(i) && i !in s ==> SameNode(k, k', i))
    && (forall d: Byte :: d != c ==> k.r[Root(d)] == k'.r[Root(d)])
  }

  lemma InsideTrans(k: Links, k1: Links, k2: Links, s: seq<int>, c: Byte)
    requires k.Sized() && k1.Sized() && k2.Sized()
    requires Inside(k, k1, s, c) && Inside(k1, k2, s, c)
    ensures Inside(k, k2, s, c)
  {
    forall i | IsNode(i) && i !in s ensures SameNode(k, k2, i) {
      assert SameNode(k, k1, i) && SameNode(k1, k2, i);
    }
  }

  predicate Writable(s: seq<int>, c: Byte, i: int) {
    i == NIL || i == Root(c) || (IsNode(i) && i in s)
  }

  lemma InsideTakeOver(k: Links, s: seq<int>, c: Byte, p: int, q: int)
    requires k.Sized() && IsNode(p) && 0 <= q <= N
    requires 0 <= k.p[p] < N + 257 && (k.r[k.p[p]] != p ==> k.p[p] < N)
    requires Writable(s, c, p) && Writable(s, c, q) && Writable(s, c, k.p[p])
    ensures Inside(k, TakeOver(k, p, q), s, c)
  {
  }

  lemma InsideAdopt(k: Links, s: seq<int>, c: Byte, q: int, p: int)
    requires k.Sized() && IsNode(p) && IsNode(q)
    requires 0 <= k.l[p] <= N && 0 <= k.r[p] <= N
    requires Writable(s, c, q) && Writable(s, c, k.l[p]) && Writable(s, c, k.r[p])
    ensures Inside(k, Adopt(k, q, p), s, c)
  {
  }

  lemma InsideAdoptRight(k: Links, s: seq<int>, c: Byte, q: int, p: int)
    requires k.Sized() && IsNode(p) && IsNode(q) && 0 <= k.r[p] <= N
    requires Writable(s, c, q) && Writable(s, c, k.r[p])
    ensures Inside(k, AdoptRight(k, q, p), s, c)
  {
  }

  lemma InsideDetach(k: Links, s: seq<int>, c: Byte, q: int)
    requires k.Sized() && IsNode(q) && IsNode(k.p[q]) && 0 <= k.l[q] <= N
    requires Writable(s, c, k.p[q]) && Writable(s, c, k.l[q])
    ensures Inside(k, Detach(k, q), s, c)
  {
  }

  /** k' holds the tree t of p's column, which is x and z without the p between them. */
  ghost predicate Without(k: Links, k': Links, text: Text, x: seq<int>, p: int, z: seq<int>, t: Tree) {
    && k.Sized() && k'.Sized() && IsNode(p)
    && Column(k, text, p, x + [p] + z)
    && Inside(k, k', x + [p] + z, text[p])
    && Represents(k', t, k'.r[Root(text[p])], Root(text[p]))
    && Inorder(t) == x + z && k'.p[p] == NIL
  }

  /** A tree that lost exactly p is installed. */
  lemma InstallWithout(k: Links, k': Links, text: Text, trees: seq<Tree>, x: seq<int>, p: int, z: seq<int>, t: Tree)
    requires WellFormed(k, text, trees) && Without(k, k', text, x, p, z, t)
    ensures WellFormed(k', text, trees[text[p] := t])
    ensures LiveChange(k, k', p, NIL)
  {
    SortedRemove(text, x, [p], z);
    Separated(x, p, z);
    RepresentedAreLive(k', t, k'.r[Root(text[p])], Root(text[p]));
    InsideTouches(k, k', text, x + [p] + z, p);
    LiveWithout(k, k', text, x, p, z);
    LiveChanges(k, k', text, text[p], x + [p] + z, x + z, p, NIL);
    Install(k, k', text, trees, text[p], t);
  }

  lemma InsideTouches(k: Links, k': Links, text: Text, s: seq<int>, p: int)
    requires k.Sized() && k'.Sized() && IsNode(p) && Column(k, text, p, s) && Inside(k, k', s, text[p])
    ensures TouchesOnly(k, k', text, text[p])
  {
  }

  lemma LiveWithout(k: Links, k': Links, text: Text, x: seq<int>, p: int, z: seq<int>)
    requires k.Sized() && k'.Sized() && IsNode(p)
    requires LiveAre(k, text, text[p], x + [p] + z) && Inside(k, k', x + [p] + z, text[p])
    requires k'.p[p] == NIL && p !in x + z
    requires forall i :: i in x + z ==> IsNode(i) && k'.p[i] != NIL
    ensures LiveAre(k', text, text[p], x + z)
  {
    forall i | IsNode(i) && text[i] == text[p] ensures k'.p[i] != NIL <==> i in x + z {
      if i !in x + [p] + z {
        assert SameNode(k, k', i);
      }
    }
  }

  /** Lines 260-263: at most one child. */
  lemma RemoveBypass(k: Links, text: Text, trees: seq<Tree>, ctx: Ctx, a: Tree, p: int, b: Tree)
    requires IsNode(p) && Exposed(k, text, trees, ctx, a, p, b)
    requires a == Leaf || b == Leaf
    ensures k.Sized() && (b == Leaf <==> k.r[p] == NIL) && (a == Leaf <==> k.l[p] == NIL)
    ensures var t, q := if b == Leaf then a else b, if b == Leaf then k.l[p] else k.r[p];
            && OnlyChild(k, a, p, b, t, q)
            && WellFormed(TakeOver(k, p, q), text, trees[text[p] := Plug(ctx, t)])
            && LiveChange(k, TakeOver(k, p, q), p, NIL)
  {
    var c := text[p];
    var t := if b == Leaf then a else b;
    ExposedFacts(k, text, trees, ctx, a, p, b);
    BypassNode(k, ctx, Root(c), a, p, b);
    var q := if b == Leaf then k.l[p] else k.r[p];
    BypassInside(k, ctx, c, a, p, b, t, q);
    WithoutMiddle(ctx, a, p, b);
    BypassedOrder(ctx, a, b, t);
    InstallWithout(k, TakeOver(k, p, q), text, trees, Before(ctx) + Inorder(a), p,
                   Inorder(b) + After(ctx), Plug(ctx, t));
  }

  lemma BypassedOrder(ctx: Ctx, a: Tree, b: Tree, t: Tree)
    requires (b == Leaf && t == a) || (a == Leaf && t == b)
    ensures Inorder(Plug(ctx, t)) == (Before(ctx) + Inorder(a)) + (Inorder(b) + After(ctx))
  {
    InorderPlug(ctx, t);
    if t == a && b == Leaf {
      assert Inorder(b) + After(ctx) == After(ctx);
    } else {
      assert Before(ctx) + Inorder(a) == Before(ctx);
    }
  }

  lemma BypassInside(k: Links, ctx: Ctx, c: Byte, a: Tree, p: int, b: Tree, t: Tree, q: int)
    requires k.Sized() && OnlyChild(k, a, p, b, t, q)
    requires Represents(k, Plug(ctx, Node(a, p, b)), k.r[Root(c)], Root(c))
    requires NoDup(Around3(ctx, a, p, b))
    ensures Inside(k, TakeOver(k, p, q), Around3(ctx, a, p, b), c)
  {
    ParentAndChildren(k, ctx, c, a, p, b);
    InsideTakeOver(k, Around3(ctx, a, p, b), c, p, q);
  }

  /** The neighbours of p all belong to p's tree. */
  lemma ParentAndChildren(k: Links, ctx: Ctx, c: Byte, a: Tree, p: int, b: Tree)
    requires k.Sized()
    requires Represents(k, Plug(ctx, Node(a, p, b)), k.r[Root(c)], Root(c))
    requires NoDup(Around3(ctx, a, p, b))
    ensures IsNode(p) && 0 <= k.l[p] <= N && 0 <= k.r[p] <= N && 0 <= k.p[p] < N + 257
    ensures var s := Around3(ctx, a, p, b);
            p in s && Writable(s, c, k.p[p]) && Writable(s, c, k.l[p]) && Writable(s, c, k.r[p])
  {
    HoleFacts(k, ctx, Root(c), a, p, b);
    OuterInside(ctx);
    HoleIsReal(k, ctx, Root(c));
    TopNode(k, a, k.l[p], p);
    TopNode(k, b, k.r[p], p);
    assert p in Inorder(Node(a, p, b));
    assert forall i :: i in Inorder(a) || i in Inorder(b) ==> i in Inorder(Node(a, p, b));
  }

  lemma WithoutMiddle(ctx: Ctx, a: Tree, p: int, b: Tree)
    ensures Around3(ctx, a, p, b) == (Before(ctx) + Inorder(a)) + [p] + (Inorder(b) + After(ctx))
  {
  }

  /** Lines 265 and 275-276: the left child has no right child and moves up. */
  lemma RemoveRaising(k: Links, text: Text, trees: seq<Tree>, ctx: Ctx, qa: Tree, q: int, p: int, b: Tree)
    requires IsNode(p) && Exposed(k, text, trees, ctx, Node(qa, q, Leaf), p, b)
    ensures k.Sized() && CanRaise(k, p, q)
    ensures var k' := TakeOver(AdoptRight(k, q, p), p, q);
            && WellFormed(k', text, trees[text[p] := Plug(ctx, Node(qa, q, b))])
            && LiveChange(k, k', p, NIL)
  {
    var x, z := Before(ctx) + Inorder(Node(qa, q, Leaf)), Inorder(b) + After(ctx);
    RaisingFacts(k, text, trees, ctx, qa, q, p, b, x, z);
    assert WellFormed(k, text, trees);
    InstallWithout(k, TakeOver(AdoptRight(k, q, p), p, q), text, trees, x, p, z, Plug(ctx, Node(qa, q, b)));
  }

  /** Everything about raising q that concerns p's tree alone; x and z are what stands before and after p. */
  lemma RaisingFacts(k: Links, text: Text, trees: seq<Tree>, ctx: Ctx, qa: Tree, q: int, p: int, b: Tree,
                     x: seq<int>, z: seq<int>)
    requires IsNode(p) && Exposed(k, text, trees, ctx, Node(qa, q, Leaf), p, b)
    requires x == Before(ctx) + Inorder(Node(qa, q, Leaf)) && z == Inorder(b) + After(ctx)
    ensures k.Sized() && CanRaise(k, p, q)
    ensures Without(k, TakeOver(AdoptRight(k, q, p), p, q), text, x, p, z, Plug(ctx, Node(qa, q, b)))
  {
    var a := Node(qa, q, Leaf);
    ExposedFacts(k, text, trees, ctx, a, p, b);
    RaiseLeft(k, ctx, Root(text[p]), qa, q, p, b);
    RaiseInside(k, ctx, text[p], qa, q, p, b);
    WithoutMiddle(ctx, a, p, b);
    InorderPlug(ctx, Node(qa, q, b));
    RaisedOrder(ctx, qa, q, b);
    TakenOver(AdoptRight(k, q, p), p, q);
  }

  lemma RaisedOrder(ctx: Ctx, qa: Tree, q: int, b: Tree)
    ensures Before(ctx) + Inorder(Node(qa, q, b)) + After(ctx)
         == (Before(ctx) + Inorder(Node(qa, q, Leaf))) + (Inorder(b) + After(ctx))
  {
    assert Inorder(Node(qa, q, Leaf)) == Inorder(qa) + [q];
  }

  lemma RaiseInside(k: Links, ctx: Ctx, c: Byte, qa: Tree, q: int, p: int, b: Tree)
    requires k.Sized() && CanRaise(k, p, q)
    requires Represents(k, Plug(ctx, Node(Node(qa, q, Leaf), p, b)), k.r[Root(c)], Root(c))
    requires NoDup(Around3(ctx, Node(qa, q, Leaf), p, b))
    ensures Inside(k, TakeOver(AdoptRight(k, q, p), p, q), Around3(ctx, Node(qa, q, Leaf), p, b), c)
  {
    var s := Around3(ctx, Node(qa, q, Leaf), p, b);
    ParentAndChildren(k, ctx, c, Node(qa, q, Leaf), p, b);
    InsideAdoptRight(k, s, c, q, p);
    var k1 := AdoptRight(k, q, p);
    InsideTakeOver(k1, s, c, p, q);
    InsideTrans(k, k1, TakeOver(k1, p, q), s, c);
  }

  /** A walk along right children only. */
  predicate RightSpine(sp: Ctx) {
    match sp
    case Top => true
    case InLeft(_, _, _) => false
    case InRight(up, _, _) => RightSpine(up)
  }

  lemma {:induction false} SpineAfter(sp: Ctx)
    requires RightSpine(sp)
    ensures After(sp) == []
  {
    if !sp.Top? { SpineAfter(sp.up); }
  }

  /** Lines 266-273 and on: the maximum q of the left subtree leaves its place and takes p's. */
  lemma RemoveByPredecessor(k: Links, text: Text, trees: seq<Tree>, ctx: Ctx, sp: Ctx, qa: Tree, q: int, p: int,
      b: Tree)
    requires IsNode(p) && sp.InRight? && RightSpine(sp)
    requires Exposed(k, text, trees, ctx, Plug(sp, Node(qa, q, Leaf)), p, b)
    ensures k.Sized() && CanDetach(k, q) && CanReplace(Detach(k, q), p, q)
    ensures var k' := TakeOver(Adopt(Detach(k, q), q, p), p, q);
            && WellFormed(k', text, trees[text[p] := Plug(ctx, Node(Plug(sp, qa), q, b))])
            && LiveChange(k, k', p, NIL)
  {
    var x, z := Before(ctx) + Inorder(Plug(sp, Node(qa, q, Leaf))), Inorder(b) + After(ctx);
    PredecessorFacts(k, text, trees, ctx, sp, qa, q, p, b, x, z);
    var k', t := TakeOver(Adopt(Detach(k, q), q, p), p, q), Plug(ctx, Node(Plug(sp, qa), q, b));
    assert WellFormed(k, text, trees);
    InstallWithout(k, k', text, trees, x, p, z, t);
  }

  /** Everything about the exchange that concerns p's tree alone; x and z are what stands before and after p. */
  lemma PredecessorFacts(k: Links, text: Text, trees: seq<Tree>, ctx: Ctx, sp: Ctx, qa: Tree, q: int, p: int, b: Tree,
                         x: seq<int>, z: seq<int>)
    requires IsNode(p) && sp.InRight? && RightSpine(sp)
    requires Exposed(k, text, trees, ctx, Plug(sp, Node(qa, q, Leaf)), p, b)
    requires x == Before(ctx) + Inorder(Plug(sp, Node(qa, q, Leaf))) && z == Inorder(b) + After(ctx)
    ensures k.Sized() && CanDetach(k, q) && CanReplace(Detach(k, q), p, q)
    ensures var k' := TakeOver(Adopt(Detach(k, q), q, p), p, q);
            var t := Plug(ctx, Node(Plug(sp, qa), q, b));
            Without(k, k', text, x, p, z, t)
  {
    PredecessorLinks(k, text, trees, ctx, sp, qa, q, p, b);
    PredecessorOrder(ctx, sp, qa, q, p, b);
    assert Around3(ctx, Plug(sp, Node(qa, q, Leaf)), p, b) == x + [p] + z;
    TakenOver(Adopt(Detach(k, q), q, p), p, q);
  }

  lemma TakenOver(k: Links, p: int, q: int)
    requires k.Sized() && IsNode(p) && IsNode(q) && 0 <= k.p[p] < N + 257 && (k.r[k.p[p]] != p ==> k.p[p] < N)
    ensures TakeOver(k, p, q).p[p] == NIL
  {
  }

  lemma PredecessorLinks(k: Links, text: Text, trees: seq<Tree>, ctx: Ctx, sp: Ctx, qa: Tree, q: int, p: int, b: Tree)
    requires IsNode(p) && sp.InRight? && RightSpine(sp)
    requires Exposed(k, text, trees, ctx, Plug(sp, Node(qa, q, Leaf)), p, b)
    ensures k.Sized() && CanDetach(k, q) && CanReplace(Detach(k, q), p, q)
    ensures var k' := TakeOver(Adopt(Detach(k, q), q, p), p, q);
            var s := Around3(ctx, Plug(sp, Node(qa, q, Leaf)), p, b);
            && Column(k, text, p, s) && Inside(k, k', s, text[p])
            && Represents(k', Plug(ctx, Node(Plug(sp, qa), q, b)), k'.r[Root(text[p])], Root(text[p]))
  {
    ExposedFacts(k, text, trees, ctx, Plug(sp, Node(qa, q, Leaf)), p, b);
    PredecessorTree(k, ctx, sp, text[p], qa, q, p, b);
  }

  lemma PredecessorOrder(ctx: Ctx, sp: Ctx, qa: Tree, q: int, p: int, b: Tree)
    requires RightSpine(sp)
    ensures var a := Plug(sp, Node(qa, q, Leaf));
            && Inorder(Plug(ctx, Node(Plug(sp, qa), q, b))) == (Before(ctx) + Inorder(a)) + (Inorder(b) + After(ctx))
            && Around3(ctx, a, p, b) == (Before(ctx) + Inorder(a)) + [p] + (Inorder(b) + After(ctx))
  {
    SpineOrder(ctx, sp, qa, q, p, b);
    InorderPlug(ctx, Node(Plug(sp, qa), q, b));
    WithoutMiddle(ctx, Plug(sp, Node(qa, q, Leaf)), p, b);
  }

  lemma PredecessorTree(k: Links, ctx: Ctx, sp: Ctx, c: Byte, qa: Tree, q: int, p: int, b: Tree)
    requires k.Sized() && sp.InRight? && RightSpine(sp)
    requires Represents(k, Plug(ctx, Node(Plug(sp, Node(qa, q, Leaf)), p, b)), k.r[Root(c)], Root(c))
    requires NoDup(Around3(ctx, Plug(sp, Node(qa, q, Leaf)), p, b))
    ensures CanDetach(k, q) && CanReplace(Detach(k, q), p, q)
    ensures var k' := TakeOver(Adopt(Detach(k, q), q, p), p, q);
            && Represents(k', Plug(ctx, Node(Plug(sp, qa), q, b)), k'.r[Root(c)], Root(c))
            && Inside(k, k', Around3(ctx, Plug(sp, Node(qa, q, Leaf)), p, b), c)
  {
    var a, a' := Plug(sp, Node(qa, q, Leaf)), Plug(sp, qa);
    SpineOrder(ctx, sp, qa, q, p, b);
    DetachBelow(k, ctx, sp, c, qa, q, p, b);
    PredecessorFree(ctx, a, a', q, p, b);
    ReplaceNode(Detach(k, q), ctx, Root(c), a', p, b, q);
    PredecessorInside(k, ctx, c, a, a', q, p, b);
  }

  predicate CanDetach(k: Links, q: int)
    requires k.Sized()
  {
    IsNode(q) && IsNode(k.p[q]) && 0 <= k.l[q] <= N && k.l[q] != q
  }

  lemma SpineOrder(ctx: Ctx, sp: Ctx, qa: Tree, q: int, p: int, b: Tree)
    requires RightSpine(sp)
    ensures Inorder(Plug(sp, Node(qa, q, Leaf))) == Inorder(Plug(sp, qa)) + [q]
    ensures Before(ctx) + Inorder(Node(Plug(sp, qa), q, b)) + After(ctx)
         == (Before(ctx) + Inorder(Plug(sp, Node(qa, q, Leaf)))) + (Inorder(b) + After(ctx))
  {
    SpineAfter(sp);
    InorderPlug(sp, Node(qa, q, Leaf));
    InorderPlug(sp, qa);
    assert Inorder(Node(qa, q, Leaf)) == Inorder(qa) + [q];
  }

  lemma PredecessorFree(ctx: Ctx, a: Tree, a': Tree, q: int, p: int, b: Tree)
    requires Inorder(a) == Inorder(a') + [q] && NoDup(Around3(ctx, a, p, b))
    ensures NoDup(Around3(ctx, a', p, b)) && q !in Around3(ctx, a', p, b)
    ensures forall i :: i in Around3(ctx, a', p, b) ==> i in Around3(ctx, a, p, b)
    ensures q in Around3(ctx, a, p, b)
  {
    var x, z := Before(ctx) + Inorder(a'), [p] + Inorder(b) + After(ctx);
    RegroupAround(Before(ctx), Inorder(a'), q, p, Inorder(b), After(ctx));
    Separated(x, q, z);
    NoDupRemove(x, q, z);
  }

  lemma RegroupAround(x: seq<int>, a: seq<int>, q: int, p: int, b: seq<int>, z: seq<int>)
    ensures x + ((a + [q]) + [p] + b) + z == (x + a) + [q] + ([p] + b + z)
    ensures x + (a + [p] + b) + z == (x + a) + ([p] + b + z)
  {
  }

  lemma NoDupRemove(x: seq<int>, q: int, z: seq<int>)
    requires NoDup(x + [q] + z)
    ensures NoDup(x + z)
  {
    var s, s' := x + [q] + z, x + z;
    assert forall u :: 0 <= u < |s'| ==> s'[u] == s[if u < |x| then u else u + 1];
  }

  lemma DetachBelow(k: Links, ctx: Ctx, sp: Ctx, c: Byte, qa: Tree, q: int, p: int, b: Tree)
    requires k.Sized() && sp.InRight?
    requires Represents(k, Plug(ctx, Node(Plug(sp, Node(qa, q, Leaf)), p, b)), k.r[Root(c)], Root(c))
    requires NoDup(Around3(ctx, Plug(sp, Node(qa, q, Leaf)), p, b))
    ensures CanDetach(k, q)
    ensures Represents(Detach(k, q), Plug(ctx, Node(Plug(sp, qa), p, b)), Detach(k, q).r[Root(c)], Root(c))
    ensures Writable(Around3(ctx, Plug(sp, Node(qa, q, Leaf)), p, b), c, k.p[q])
    ensures Writable(Around3(ctx, Plug(sp, Node(qa, q, Leaf)), p, b), c, k.l[q])
  {
    var t := Node(qa, q, Leaf);
    var outer := InLeft(ctx, p, b);
    var full := Compose(outer, sp);
    PlugCompose(outer, sp, t);
    PlugCompose(outer, sp, qa);
    InorderPlug(ctx, Node(Plug(sp, t), p, b));
    InorderPlug(full, t);
    assert Around3(full, qa, q, Leaf) == Around3(ctx, Plug(sp, t), p, b);
    DetachMax(k, full, Root(c), qa, q);
    ParentAndChildren(k, full, c, qa, q, Leaf);
  }

  lemma PredecessorInside(k: Links, ctx: Ctx, c: Byte, a: Tree, a': Tree, q: int, p: int, b: Tree)
    requires k.Sized() && CanDetach(k, q) && CanReplace(Detach(k, q), p, q)
    requires Represents(Detach(k, q), Plug(ctx, Node(a', p, b)), Detach(k, q).r[Root(c)], Root(c))
    requires NoDup(Around3(ctx, a', p, b))
    requires forall i :: i in Around3(ctx, a', p, b) ==> i in Around3(ctx, a, p, b)
    requires q in Around3(ctx, a, p, b)
    requires Writable(Around3(ctx, a, p, b), c, k.p[q]) && Writable(Around3(ctx, a, p, b), c, k.l[q])
    ensures Inside(k, TakeOver(Adopt(Detach(k, q), q, p), p, q), Around3(ctx, a, p, b), c)
  {
    var s := Around3(ctx, a, p, b);
    var k1 := Detach(k, q);
    InsideDetach(k, s, c, q);
    ParentAndChildren(k1, ctx, c, a', p, b);
    InsideAdopt(k1, s, c, q, p);
    var k2 := Adopt(k1, q, p);
    InsideTakeOver(k2, s, c, p, q);
    InsideTrans(k, k1, k2, s, c);
    InsideTrans(k, k2, TakeOver(k2, p, q), s, c);
  }

  /** Deleting p, whichever way: p is gone, everything else stays. */
  ghost predicate Deleted(k: Links, k': Links, text: Text, trees': seq<Tree>, p: int)
    requires k.Sized() && k'.Sized()
  {
    WellFormed(k', text, trees') && LiveSet(k') == LiveSet(k) - {p}
  }

  lemma LiveAfterDelete(k: Links, k': Links, p: int)
    requires k.Sized() && k'.Sized() && IsNode(p) && LiveChange(k, k', p, NIL)
    ensures LiveSet(k') == LiveSet(k) - {p}
  {
  }

  /** A live node is exposed by some context. */
  lemma Expose(k: Links, text: Text, trees: seq<Tree>, p: int) returns (ctx: Ctx, a: Tree, b: Tree)
    requires WellFormed(k, text, trees) && IsNode(p) && k.p[p] != NIL
    ensures Exposed(k, text, trees, ctx, a, p, b)
    ensures Represents(k, Node(a, p, b), p, k.p[p]) && 0 <= k.p[p] < N + 257
    ensures (a == Leaf <==> k.l[p] == NIL) && (b == Leaf <==> k.r[p] == NIL)
  {
    ctx, a, b := Locate(Top, trees[text[p]], p);
    ExposedFacts(k, text, trees, ctx, a, p, b);
    HoleFacts(k, ctx, Root(text[p]), a, p, b);
    TopNode(k, a, k.l[p], p);
    TopNode(k, b, k.r[p], p);
  }

  lemma DeletedBypass(k: Links, text: Text, trees: seq<Tree>, ctx: Ctx, a: Tree, p: int, b: Tree, q: int)
    requires IsNode(p) && Exposed(k, text, trees, ctx, a, p, b) && (a == Leaf || b == Leaf)
    requires q == if b == Leaf then k.l[p] else k.r[p]
    ensures k.Sized() && CanTakeOver(k, p, q)
    ensures Deleted(k, TakeOver(k, p, q), text, trees[text[p] := Plug(ctx, if b == Leaf then a else b)], p)
  {
    RemoveBypass(k, text, trees, ctx, a, p, b);
    LiveAfterDelete(k, TakeOver(k, p, q), p);
  }

  lemma DeletedRaising(k: Links, text: Text, trees: seq<Tree>, ctx: Ctx, qa: Tree, q: int, p: int, b: Tree)
    requires IsNode(p) && Exposed(k, text, trees, ctx, Node(qa, q, Leaf), p, b)
    ensures k.Sized() && CanRaise(k, p, q) && CanTakeOver(AdoptRight(k, q, p), p, q)
    ensures Deleted(k, TakeOver(AdoptRight(k, q, p), p, q), text, trees[text[p] := Plug(ctx, Node(qa, q, b))], p)
  {
    RemoveRaising(k, text, trees, ctx, qa, q, p, b);
    LiveAfterDelete(k, TakeOver(AdoptRight(k, q, p), p, q), p);
  }

  lemma DeletedByPredecessor(k: Links, text: Text, trees: seq<Tree>, ctx: Ctx, sp: Ctx, qa: Tree, q: int, p: int,
      b: Tree)
    requires IsNode(p) && sp.InRight? && RightSpine(sp)
    requires Exposed(k, text, trees, ctx, Plug(sp, Node(qa, q, Leaf)), p, b)
    ensures k.Sized() && CanDetach(k, q) && CanReplace(Detach(k, q), p, q)
    ensures CanTakeOver(Adopt(Detach(k, q), q, p), p, q)
    ensures Deleted(k, TakeOver(Adopt(Detach(k, q), q, p), p, q), text,
                    trees[text[p] := Plug(ctx, Node(Plug(sp, qa), q, b))], p)
  {
    RemoveByPredecessor(k, text, trees, ctx, sp, qa, q, p, b);
    LiveAfterDelete(k, TakeOver(Adopt(Detach(k, q), q, p), p, q), p);
  }

  /** The stores that put q in p's place stay inside the arrays; a root index never reaches lchild. */
  predicate CanTakeOver(k: Links, p: int, q: int)
    requires k.Sized()
  {
    && IsNode(p) && 0 <= q <= N && q != p
    && 0 <= k.p[p] < N + 257 && (k.r[k.p[p]] != p ==> k.p[p] < N)
  }

  /** The top of a right subtree, one step further down the spine. */
  lemma SpineStep(k: Links, sp: Ctx, t: Tree, q: int, par: int)
    requires k.Sized() && t.Node? && Represents(k, t, q, par) && RightSpine(sp)
    ensures IsNode(q) && t.idx == q && 0 <= k.r[q] <= N && 0 <= k.l[q] <= N
    ensures k.r[q] == NIL <==> t.right == Leaf
    ensures k.r[q] != NIL ==> t.right.Node? && Represents(k, t.right, k.r[q], q)
    ensures RightSpine(InRight(sp, t.left, q)) && Plug(InRight(sp, t.left, q), t.right) == Plug(sp, t)
  {
    TopNode(k, t.left, k.l[q], q);
    TopNode(k, t.right, k.r[q], q);
  }

  /** Seen without the trees: parent and child links are mutually inverse and children are ordered. */
  lemma LinksAreMutual(k: Links, text: Text, trees: seq<Tree>, i: int)
    requires WellFormed(k, text, trees) && IsNode(i) && k.p[i] != NIL
    ensures k.p[i] == Root(text[i]) || (IsNode(k.p[i]) && k.p[k.p[i]] != NIL && text[k.p[i]] == text[i])
    ensures k.r[k.p[i]] == i || (IsNode(k.p[i]) && k.l[k.p[i]] == i)
    ensures !(k.r[k.p[i]] == i && IsNode(k.p[i]) && k.l[k.p[i]] == i)
    ensures k.l[i] == NIL || (IsNode(k.l[i]) && k.p[k.l[i]] == i && Less(Window(text, k.l[i]), Window(text, i)))
    ensures k.r[i] == NIL || (IsNode(k.r[i]) && k.p[k.r[i]] == i && Less(Window(text, i), Window(text, k.r[i])))
  {
    var c := text[i];
    var ctx, a, b := Expose(k, text, trees, i);
    ExposedFacts(k, text, trees, ctx, a, i, b);
    HoleFacts(k, ctx, Root(c), a, i, b);
    ParentAndChildren(k, ctx, c, a, i, b);
    OnOneSide(k, ctx, c, a, i, b);
    SortedAround(text, Before(ctx), Inorder(a), i, Inorder(b), After(ctx));
    TopNode(k, a, k.l[i], i);
    TopNode(k, b, k.r[i], i);
  }

  lemma OnOneSide(k: Links, ctx: Ctx, c: Byte, a: Tree, i: int, b: Tree)
    requires k.Sized() && RepresentsCtx(k, ctx, Root(c)) && IsNode(i) && k.p[i] == HoleParent(ctx, Root(c))
    requires Slot(k, ctx, Root(c)) == i && NoDup(Around3(ctx, a, i, b))
    ensures k.r[HoleParent(ctx, Root(c))] == i || (ctx.InLeft? && k.l[ctx.idx] == i)
    ensures ctx.InRight? ==> k.l[ctx.idx] != i
    ensures ctx.InLeft? ==> k.r[ctx.idx] != i
  {
    CtxNodes(ctx, Inorder(Node(a, i, b)));
    assert i in Inorder(Node(a, i, b));
    if ctx.InRight? {
      TopNode(k, ctx.left, k.l[ctx.idx], ctx.idx);
    } else if ctx.InLeft? {
      TopNode(k, ctx.right, k.r[ctx.idx], ctx.idx);
    }
  }
}
