/**
 The walk of insert_node and the whole-forest effect of inserting and deleting a node.
 */
module Descent {
  import opened Base
  import opened Lzss
  import opened SearchTree
  import opened TreeEdits
  import opened Forest

  /** The code stands at the hole of ctx, t hangs below it, and r belongs somewhere inside t. */
  ghost predicate At(k: Links, text: Text, trees: seq<Tree>, ctx: Ctx, t: Tree, r: int)
    requires IsNode(r)
  {
    var c := text[r];
    && WellFormed(k, text, trees)
    && Plug(ctx, t) == trees[c]
    && RepresentsCtx(k, ctx, Root(c))
    && Represents(k, t, Slot(k, ctx, Root(c)), HoleParent(ctx, Root(c)))
    && Around(text, ctx, r)
  }

  /** r sorts after everything before the hole and before everything after it. */
  ghost predicate Around(text: Text, ctx: Ctx, r: int)
    requires IsNode(r)
  {
    && (forall i :: i in Before(ctx) ==> IsNode(i) && Less(Window(text, i), Window(text, r)))
    && (forall i :: i in After(ctx) ==> IsNode(i) && Less(Window(text, r), Window(text, i)))
  }

  function Shared(text: Text, r: int, i: int): nat
    requires IsNode(r)
  {
    if IsNode(i) then Lcp(Window(text, r), Window(text, i)) else 0
  }

  /** (pos, len) is the best match with r among the nodes of ctx; len is 0 only before the first step. */
  ghost predicate Best(text: Text, ctx: Ctx, r: int, pos: int, len: int)
    requires IsNode(r)
  {
    && 0 <= len < F
    && (len == 0 <==> ctx == Top)
    && (len != 0 ==> pos in Before(ctx) + After(ctx) && Shared(text, r, pos) == len)
    && forall i :: i in Before(ctx) + After(ctx) ==> Shared(text, r, i) <= len
  }

  lemma StartAtRoot(k: Links, text: Text, trees: seq<Tree>, r: int)
    requires IsNode(r) && WellFormed(k, text, trees)
    ensures At(k, text, trees, Top, trees[text[r]], r)
  {
    assert TreeOk(k, text, trees[text[r]], text[r]);
  }

  /** What is known of the nodes in r's tree: s lists them in order. */
  ghost predicate Column(k: Links, text: Text, r: int, s: seq<int>)
    requires IsNode(r) && k.Sized()
  {
    && AreNodes(s) && Sorted(text, s) && NoDup(s)
    && (forall i :: i in s ==> IsNode(i) && text[i] == text[r])
    && LiveAre(k, text, text[r], s)
  }

  lemma BelowHole(k: Links, text: Text, trees: seq<Tree>, ctx: Ctx, t: Tree, r: int)
    requires IsNode(r) && At(k, text, trees, ctx, t, r)
    ensures Column(k, text, r, Before(ctx) + Inorder(t) + After(ctx))
  {
    InorderPlug(ctx, t);
    assert TreeOk(k, text, trees[text[r]], text[r]);
    SortedNoDup(text, Before(ctx) + Inorder(t) + After(ctx));
  }

  lemma BelowEmptyHole(k: Links, text: Text, trees: seq<Tree>, ctx: Ctx, r: int)
    requires IsNode(r) && At(k, text, trees, ctx, Leaf, r)
    ensures Column(k, text, r, Before(ctx) + After(ctx))
  {
    NothingBetween(ctx);
    BelowHole(k, text, trees, ctx, Leaf, r);
  }

  lemma NothingBetween(ctx: Ctx)
    ensures Before(ctx) + Inorder(Leaf) + After(ctx) == Before(ctx) + After(ctx)
  {
  }

  lemma HoleIsReal(k: Links, ctx: Ctx, root: int)
    requires k.Sized() && N < root < N + 257 && RepresentsCtx(k, ctx, root)
    ensures HoleParent(ctx, root) != NIL && (!ctx.Top? ==> IsNode(ctx.idx))
  {
  }

  lemma SortedAround(text: Text, x: seq<int>, a: seq<int>, i: int, b: seq<int>, z: seq<int>)
    requires AreNodes(x + (a + [i] + b) + z) && Sorted(text, x + (a + [i] + b) + z)
    ensures IsNode(i) && AreNodes(a) && AreNodes(b)
    ensures forall j :: j in a ==> IsNode(j) && Less(Window(text, j), Window(text, i))
    ensures forall j :: j in b ==> IsNode(j) && Less(Window(text, i), Window(text, j))
  {
    var s := x + (a + [i] + b) + z;
    var n := |x| + |a|;
    assert s[n] == i;
    forall u | 0 <= u < |a| ensures IsNode(a[u]) && Less(Window(text, a[u]), Window(text, i)) {
      assert s[|x| + u] == a[u];
    }
    forall u | 0 <= u < |b| ensures IsNode(b[u]) && Less(Window(text, i), Window(text, b[u])) {
      assert s[n + 1 + u] == b[u];
    }
  }

  lemma GoRight(k: Links, text: Text, trees: seq<Tree>, ctx: Ctx, a: Tree, i: int, b: Tree, r: int)
    requires IsNode(r) && At(k, text, trees, ctx, Node(a, i, b), r)
    requires IsNode(i) && Less(Window(text, i), Window(text, r))
    ensures At(k, text, trees, InRight(ctx, a, i), b, r)
    ensures forall j :: j in Inorder(a) ==> Shared(text, r, j) <= Shared(text, r, i)
  {
    BelowHole(k, text, trees, ctx, Node(a, i, b), r);
    PassRight(text, ctx, a, i, b, r);
  }

  lemma PassRight(text: Text, ctx: Ctx, a: Tree, i: int, b: Tree, r: int)
    requires IsNode(r) && Around(text, ctx, r)
    requires AreNodes(Before(ctx) + Inorder(Node(a, i, b)) + After(ctx))
    requires Sorted(text, Before(ctx) + Inorder(Node(a, i, b)) + After(ctx))
    requires IsNode(i) && Less(Window(text, i), Window(text, r))
    ensures Around(text, InRight(ctx, a, i), r)
    ensures forall j :: j in Inorder(a) ==> Shared(text, r, j) <= Shared(text, r, i)
  {
    SortedAround(text, Before(ctx), Inorder(a), i, Inorder(b), After(ctx));
    forall j | j in Inorder(a)
      ensures IsNode(j) && Less(Window(text, j), Window(text, r)) && Shared(text, r, j) <= Shared(text, r, i)
    {
      LcpBetween(Window(text, j), Window(text, i), Window(text, r));
      LcpSymmetric(Window(text, j), Window(text, r));
      LcpSymmetric(Window(text, i), Window(text, r));
    }
  }

  lemma GoLeft(k: Links, text: Text, trees: seq<Tree>, ctx: Ctx, a: Tree, i: int, b: Tree, r: int)
    requires IsNode(r) && At(k, text, trees, ctx, Node(a, i, b), r)
    requires IsNode(i) && Less(Window(text, r), Window(text, i))
    ensures At(k, text, trees, InLeft(ctx, i, b), a, r)
    ensures forall j :: j in Inorder(b) ==> Shared(text, r, j) <= Shared(text, r, i)
  {
    BelowHole(k, text, trees, ctx, Node(a, i, b), r);
    PassLeft(text, ctx, a, i, b, r);
  }

  lemma PassLeft(text: Text, ctx: Ctx, a: Tree, i: int, b: Tree, r: int)
    requires IsNode(r) && Around(text, ctx, r)
    requires AreNodes(Before(ctx) + Inorder(Node(a, i, b)) + After(ctx))
    requires Sorted(text, Before(ctx) + Inorder(Node(a, i, b)) + After(ctx))
    requires IsNode(i) && Less(Window(text, r), Window(text, i))
    ensures Around(text, InLeft(ctx, i, b), r)
    ensures forall j :: j in Inorder(b) ==> Shared(text, r, j) <= Shared(text, r, i)
  {
    SortedAround(text, Before(ctx), Inorder(a), i, Inorder(b), After(ctx));
    forall j | j in Inorder(b)
      ensures IsNode(j) && Less(Window(text, r), Window(text, j)) && Shared(text, r, j) <= Shared(text, r, i)
    {
      LcpBetween(Window(text, r), Window(text, i), Window(text, j));
    }
  }

  /** The new best match after looking at node i and turning away from it. */
  lemma BestStep(text: Text, ctx: Ctx, a: Tree, i: int, b: Tree, r: int, pos: int, len: int, right: bool)
    requires IsNode(r) && IsNode(i) && Best(text, ctx, r, pos, len)
    requires 1 <= Shared(text, r, i) < F
    requires forall j :: j in Inorder(if right then a else b) ==> Shared(text, r, j) <= Shared(text, r, i)
    ensures var m := Shared(text, r, i);
            Best(text, if right then InRight(ctx, a, i) else InLeft(ctx, i, b), r,
                 if m > len then i else pos, if m > len then m else len)
  {
    var m := Shared(text, r, i);
    var next := if right then InRight(ctx, a, i) else InLeft(ctx, i, b);
    if right {
      assert Before(next) == Before(ctx) + Inorder(a) + [i] && After(next) == After(ctx);
    } else {
      assert After(next) == [i] + Inorder(b) + After(ctx) && Before(next) == Before(ctx);
    }
    assert forall j :: (j in Before(next) + After(next)
                        <==> (j in Before(ctx) + After(ctx) || j == i || j in Inorder(if right then a else b)));
  }

  lemma InsertAsLeaf(k: Links, text: Text, trees: seq<Tree>, ctx: Ctx, r: int)
    requires IsNode(r) && At(k, text, trees, ctx, Leaf, r)
    requires k.p[r] == NIL && k.l[r] == NIL && k.r[r] == NIL
    ensures var k' := Attach(k, HoleParent(ctx, Root(text[r])), !ctx.InLeft?, r);
            && WellFormed(k', text, trees[text[r] := Plug(ctx, Node(Leaf, r, Leaf))])
            && LiveChange(k, k', NIL, r)
  {
    var c := text[r];
    BelowEmptyHole(k, text, trees, ctx, r);
    HoleIsReal(k, ctx, Root(c));
    LeafTreeOk(k, text, ctx, r);
    var k', t := Attach(k, HoleParent(ctx, Root(c)), !ctx.InLeft?, r), Plug(ctx, Node(Leaf, r, Leaf));
    AttachLive(k, text, Before(ctx), After(ctx), HoleParent(ctx, Root(c)), !ctx.InLeft?, r);
    Install(k, k', text, trees, c, t);
  }

  lemma AttachLive(k: Links, text: Text, x: seq<int>, z: seq<int>, par: int, right: bool, r: int)
    requires k.Sized() && IsNode(r)
    requires 0 <= par < N + 257 && par != NIL && (!right ==> par < N)
    requires LiveAre(k, text, text[r], x + z) && k.p[r] == NIL
    ensures LiveAre(Attach(k, par, right, r), text, text[r], x + [r] + z)
    ensures LiveChange(k, Attach(k, par, right, r), NIL, r)
  {
  }

  lemma LeafTreeOk(k: Links, text: Text, ctx: Ctx, r: int)
    requires IsNode(r) && k.Sized() && Around(text, ctx, r)
    requires RepresentsCtx(k, ctx, Root(text[r])) && k.l[r] == NIL && k.r[r] == NIL
    requires Column(k, text, r, Before(ctx) + After(ctx))
    ensures var k' := Attach(k, HoleParent(ctx, Root(text[r])), !ctx.InLeft?, r);
            var t := Plug(ctx, Node(Leaf, r, Leaf));
            && TreeOk(k', text, t, text[r])
            && TouchesOnly(k, k', text, text[r])
            && Inorder(t) == Before(ctx) + [r] + After(ctx)
  {
    SortedInsert(text, Before(ctx), r, After(ctx));
    SortedNoDup(text, Before(ctx) + [r] + After(ctx));
    AttachLeaf(k, ctx, Root(text[r]), r);
    InorderPlug(ctx, Node(Leaf, r, Leaf));
    assert Inorder(Node(Leaf, r, Leaf)) == [r];
    OuterInside(ctx);
    TouchAttach(k, text, text[r], HoleParent(ctx, Root(text[r])), !ctx.InLeft?, r);
  }

  lemma InsertReplacing(k: Links, text: Text, trees: seq<Tree>, ctx: Ctx, a: Tree, p: int, b: Tree, r: int)
    requires IsNode(r) && At(k, text, trees, ctx, Node(a, p, b), r)
    requires k.p[r] == NIL
    requires IsNode(p) && Window(text, p) == Window(text, r)
    ensures CanReplace(k, p, r) && k.l[p] != r && k.r[p] != r
    ensures var k' := TakeOver(Adopt(k, r, p), p, r);
            && WellFormed(k', text, trees[text[r] := Plug(ctx, Node(a, r, b))])
            && LiveChange(k, k', p, r)
  {
    ReplacingFacts(k, text, trees, ctx, a, p, b, r);
    Install(k, TakeOver(Adopt(k, r, p), p, r), text, trees, text[r], Plug(ctx, Node(a, r, b)));
  }

  /** Everything about the exchange that concerns r's tree alone. */
  lemma ReplacingFacts(k: Links, text: Text, trees: seq<Tree>, ctx: Ctx, a: Tree, p: int, b: Tree, r: int)
    requires IsNode(r) && At(k, text, trees, ctx, Node(a, p, b), r)
    requires k.p[r] == NIL
    requires IsNode(p) && Window(text, p) == Window(text, r)
    ensures CanReplace(k, p, r) && k.l[p] != r && k.r[p] != r
    ensures var k' := TakeOver(Adopt(k, r, p), p, r);
            var t := Plug(ctx, Node(a, r, b));
            && TreeOk(k', text, t, text[r]) && TouchesOnly(k, k', text, text[r])
            && LiveAre(k', text, text[r], Inorder(t)) && LiveChange(k, k', p, r)
  {
    BelowHole(k, text, trees, ctx, Node(a, p, b), r);
    RepresentsPlug(k, ctx, Node(a, p, b), Root(text[r]));
    ReplacedTreeOk(k, text, ctx, a, p, b, r);
    ReplacedLive(k, text, ctx, a, p, b, r);
    ChildrenDiffer(k, a, p, b, r);
  }

  lemma ReplacedLive(k: Links, text: Text, ctx: Ctx, a: Tree, p: int, b: Tree, r: int)
    requires k.Sized() && IsNode(r) && CanReplace(k, p, r) && text[p] == text[r]
    requires Represents(k, Node(a, p, b), p, k.p[p])
    requires NoDup(Before(ctx) + Inorder(Node(a, p, b)) + After(ctx))
    requires LiveAre(k, text, text[r], Before(ctx) + Inorder(Node(a, p, b)) + After(ctx))
    requires r !in Before(ctx) + Inorder(Node(a, p, b)) + After(ctx)
    ensures var k' := TakeOver(Adopt(k, r, p), p, r);
            && LiveAre(k', text, text[r], Before(ctx) + Inorder(Node(a, r, b)) + After(ctx))
            && LiveChange(k, k', p, r)
  {
    var k' := TakeOver(Adopt(k, r, p), p, r);
    var s, s' := Before(ctx) + Inorder(Node(a, p, b)) + After(ctx), Before(ctx) + Inorder(Node(a, r, b)) + After(ctx);
    TopNode(k, a, k.l[p], p);
    TopNode(k, b, k.r[p], p);
    Exchanged(Before(ctx), a, p, b, After(ctx), r);
    RepresentedAreLive(k, Node(a, p, b), p, k.p[p]);
    forall i | IsNode(i) ensures k'.p[i] != NIL <==> (k.p[i] != NIL && i != p) || i == r {
      if i == k.l[p] {
        assert i in Inorder(Node(a, p, b));
      } else if i == k.r[p] {
        assert i in Inorder(Node(a, p, b));
      }
    }
  }

  lemma ChildrenDiffer(k: Links, a: Tree, p: int, b: Tree, r: int)
    requires k.Sized() && IsNode(r) && IsNode(p)
    requires Represents(k, Node(a, p, b), p, k.p[p]) && r !in Inorder(Node(a, p, b))
    ensures k.l[p] != r && k.r[p] != r
  {
    TopNode(k, a, k.l[p], p);
    TopNode(k, b, k.r[p], p);
    assert forall i :: i in Inorder(a) || i in Inorder(b) ==> i in Inorder(Node(a, p, b));
  }

  lemma Exchanged(x: seq<int>, a: Tree, p: int, b: Tree, z: seq<int>, r: int)
    requires NoDup(x + Inorder(Node(a, p, b)) + z)
    ensures x + Inorder(Node(a, p, b)) + z == (x + Inorder(a)) + [p] + (Inorder(b) + z)
    ensures x + Inorder(Node(a, r, b)) + z == (x + Inorder(a)) + [r] + (Inorder(b) + z)
    ensures forall i :: i in x + Inorder(Node(a, r, b)) + z
                  <==> i == r || (i != p && i in x + Inorder(Node(a, p, b)) + z)
  {
    assert x + Inorder(Node(a, p, b)) + z == (x + Inorder(a)) + [p] + (Inorder(b) + z);
    Separated(x + Inorder(a), p, Inorder(b) + z);
  }

  lemma ReplacedTreeOk(k: Links, text: Text, ctx: Ctx, a: Tree, p: int, b: Tree, r: int)
    requires IsNode(r) && k.Sized() && IsNode(p) && Window(text, p) == Window(text, r)
    requires Represents(k, Plug(ctx, Node(a, p, b)), k.r[Root(text[r])], Root(text[r]))
    requires Column(k, text, r, Before(ctx) + Inorder(Node(a, p, b)) + After(ctx)) && k.p[r] == NIL
    ensures CanReplace(k, p, r)
    ensures var k' := TakeOver(Adopt(k, r, p), p, r);
            var t := Plug(ctx, Node(a, r, b));
            && TreeOk(k', text, t, text[r])
            && TouchesOnly(k, k', text, text[r])
            && Inorder(t) == Before(ctx) + Inorder(Node(a, r, b)) + After(ctx)
  {
    ReplaceNode(k, ctx, Root(text[r]), a, p, b, r);
    InorderPlug(ctx, Node(a, r, b));
    Exchanged(Before(ctx), a, p, b, After(ctx), r);
    SortedExchange(text, Before(ctx) + Inorder(a), p, r, Inorder(b) + After(ctx));
    RepresentsPlug(k, ctx, Node(a, p, b), Root(text[r]));
    ReplaceTouches(k, text, ctx, a, p, b, r);
  }

  lemma ReplaceTouches(k: Links, text: Text, ctx: Ctx, a: Tree, p: int, b: Tree, r: int)
    requires k.Sized() && IsNode(r) && CanReplace(k, p, r)
    requires RepresentsCtx(k, ctx, Root(text[r]))
    requires Represents(k, Node(a, p, b), p, HoleParent(ctx, Root(text[r])))
    requires forall i :: i in Before(ctx) + Inorder(Node(a, p, b)) + After(ctx) ==> IsNode(i) && text[i] == text[r]
    ensures TouchesOnly(k, TakeOver(Adopt(k, r, p), p, r), text, text[r])
  {
    var c := text[r];
    TopNode(k, a, k.l[p], p);
    TopNode(k, b, k.r[p], p);
    OuterInside(ctx);
    assert p in Inorder(Node(a, p, b));
    assert forall i :: i in Inorder(a) || i in Inorder(b) ==> i in Inorder(Node(a, p, b));
    TouchAdopt(k, text, c, r, p);
    var k1 := Adopt(k, r, p);
    TouchTakeOver(k1, text, c, p, r);
    TouchTrans(k, k1, TakeOver(k1, p, r), text, c);
  }

  /** (pos, len) is a longest match for the window at r among the live nodes of k. */
  ghost predicate IsLongestMatch(k: Links, text: Text, r: int, pos: int, len: int)
    requires IsNode(r) && k.Sized()
  {
    && (forall j :: IsNode(j) && k.p[j] != NIL ==> Shared(text, r, j) <= len)
    && (len != 0 ==> IsNode(pos) && k.p[pos] != NIL && Shared(text, r, pos) == len)
    && (len == 0 <==> forall j :: IsNode(j) && k.p[j] != NIL ==> text[j] != text[r])
  }

  lemma OtherColumns(text: Text, r: int, j: int)
    requires IsNode(r) && IsNode(j)
    ensures text[j] != text[r] <==> Shared(text, r, j) == 0
  {
    var u, v := Window(text, r), Window(text, j);
    assert u[0] == text[r] && v[0] == text[j];
  }

  /** When the walk ends at an empty link, the whole tree has been judged. */
  lemma BestAtLeaf(k: Links, text: Text, trees: seq<Tree>, ctx: Ctx, r: int, pos: int, len: int)
    requires IsNode(r) && At(k, text, trees, ctx, Leaf, r) && Best(text, ctx, r, pos, len)
    ensures IsLongestMatch(k, text, r, pos, len)
  {
    BelowEmptyHole(k, text, trees, ctx, r);
    BestInColumn(k, text, r, Before(ctx) + After(ctx), pos, len);
    OuterInside(ctx);
  }

  lemma BestInColumn(k: Links, text: Text, r: int, s: seq<int>, pos: int, len: int)
    requires IsNode(r) && k.Sized() && Column(k, text, r, s)
    requires forall i :: i in s ==> Shared(text, r, i) <= len
    requires 0 <= len && (len != 0 ==> pos in s && Shared(text, r, pos) == len)
    ensures forall j :: IsNode(j) && k.p[j] != NIL ==> Shared(text, r, j) <= len
    ensures len != 0 ==> IsNode(pos) && k.p[pos] != NIL && Shared(text, r, pos) == len
    ensures len == 0 <==> forall j :: IsNode(j) && k.p[j] != NIL ==> text[j] != text[r]
  {
    forall j | IsNode(j) && k.p[j] != NIL
      ensures Shared(text, r, j) <= len && (len == 0 ==> text[j] != text[r])
    {
      OtherColumns(text, r, j);
    }
    if len != 0 { OtherColumns(text, r, pos); }
  }

  /** A full match cannot be beaten. */
  lemma BestIsFull(k: Links, text: Text, r: int, p: int)
    requires IsNode(r) && k.Sized() && IsNode(p) && k.p[p] != NIL && Shared(text, r, p) == F
    ensures IsLongestMatch(k, text, r, p, F)
    ensures Window(text, p) == Window(text, r) && text[p] == text[r]
  {
    OtherColumns(text, r, p);
    LcpSymmetric(Window(text, r), Window(text, p));
  }

  /** Clearing the child links of an unused node disturbs no tree. */
  lemma ClearDead(k: Links, text: Text, trees: seq<Tree>, r: int)
    requires IsNode(r) && WellFormed(k, text, trees) && k.p[r] == NIL
    ensures WellFormed(k.(l := k.l[r := NIL], r := k.r[r := NIL]), text, trees)
  {
    var k' := k.(l := k.l[r := NIL], r := k.r[r := NIL]);
    forall c: Byte ensures TreeOk(k', text, trees[c], c) {
      assert TreeOk(k, text, trees[c], c);
      ClearFrame(k, k', text, trees[c], c, r);
    }
  }

  lemma ClearFrame(k: Links, k': Links, text: Text, t: Tree, c: Byte, r: int)
    requires IsNode(r) && k.Sized() && TreeOk(k, text, t, c) && k.p[r] == NIL
    requires k' == k.(l := k.l[r := NIL], r := k.r[r := NIL])
    ensures TreeOk(k', text, t, c)
  {
    RepresentedAreLive(k, t, k.r[Root(c)], Root(c));
    RepresentsFrame(k, k', t, k.r[Root(c)], Root(c));
  }

  /** The node below the hole, once the walk steps onto it. */
  lemma StepOnto(k: Links, text: Text, trees: seq<Tree>, ctx: Ctx, t: Tree, r: int)
    requires IsNode(r) && At(k, text, trees, ctx, t, r)
    ensures k.Sized() && 0 <= HoleParent(ctx, Root(text[r])) < N + 257
    ensures (!ctx.Top? ==> IsNode(ctx.idx))
    ensures t == Leaf <==> Slot(k, ctx, Root(text[r])) == NIL
    ensures t.Node? ==>
      && t.idx == Slot(k, ctx, Root(text[r])) && IsNode(t.idx)
      && text[t.idx] == text[r] && k.p[t.idx] != NIL
  {
    HoleIsReal(k, ctx, Root(text[r]));
    if t.Node? {
      BelowHole(k, text, trees, ctx, t, r);
      assert t.idx in Inorder(t);
    }
  }

  /** Two live nodes never stand for the same string. */
  lemma LiveWindowsDiffer(k: Links, text: Text, trees: seq<Tree>, i: int, j: int)
    requires WellFormed(k, text, trees) && IsNode(i) && IsNode(j) && i != j
    requires k.p[i] != NIL && k.p[j] != NIL
    ensures Window(text, i) != Window(text, j)
  {
    if text[i] == text[j] {
      var c := text[i];
      assert TreeOk(k, text, trees[c], c);
      var s := Inorder(trees[c]);
      var u :| 0 <= u < |s| && s[u] == i;
      var v :| 0 <= v < |s| && s[v] == j;
      if u < v {
        assert Less(Window(text, s[u]), Window(text, s[v]));
      } else {
        assert Less(Window(text, s[v]), Window(text, s[u]));
      }
    } else {
      assert Window(text, i)[0] == text[i] && Window(text, j)[0] == text[j];
    }
  }

  function NextCtx(ctx: Ctx, t: Tree, right: bool): Ctx
    requires t.Node?
  {
    if right then InRight(ctx, t.left, t.idx) else InLeft(ctx, t.idx, t.right)
  }

  function NextTree(t: Tree, right: bool): Tree
    requires t.Node?
  {
    if right then t.right else t.left
  }

  /** One step of the walk: node p is judged, and the walk turns right or left of it. */
  lemma Turn(k: Links, text: Text, trees: seq<Tree>, ctx: Ctx, t: Tree, r: int, pos: int, len: int, right: bool)
    requires IsNode(r) && At(k, text, trees, ctx, t, r) && Best(text, ctx, r, pos, len)
    requires t.Node? && IsNode(t.idx) && 1 <= Shared(text, r, t.idx) < F
    requires right ==> Less(Window(text, t.idx), Window(text, r))
    requires !right ==> Less(Window(text, r), Window(text, t.idx))
    ensures At(k, text, trees, NextCtx(ctx, t, right), NextTree(t, right), r)
    ensures var m := Shared(text, r, t.idx);
            Best(text, NextCtx(ctx, t, right), r, if m > len then t.idx else pos, if m > len then m else len)
  {
    if right {
      GoRight(k, text, trees, ctx, t.left, t.idx, t.right, r);
    } else {
      GoLeft(k, text, trees, ctx, t.left, t.idx, t.right, r);
    }
    BestStep(text, ctx, t.left, t.idx, t.right, r, pos, len, right);
  }

  /** The code stands at link (p, cmp) with best match (pos, len) so far. */
  ghost predicate Walking(k: Links, text: Text, trees: seq<Tree>, ctx: Ctx, t: Tree, r: int,
                          p: int, cmp: int, pos: int, len: int)
    requires IsNode(r)
  {
    && At(k, text, trees, ctx, t, r)
    && Best(text, ctx, r, pos, len)
    && p == HoleParent(ctx, Root(text[r]))
    && (cmp >= 0 <==> !ctx.InLeft?)
  }

  /** Where the walk ends: an empty link at p, or a node p with the same window. */
  ghost predicate Arrived(k: Links, text: Text, trees: seq<Tree>, ctx: Ctx, t: Tree, r: int, p: int, cmp: int)
    requires IsNode(r)
  {
    && At(k, text, trees, ctx, t, r)
    && (t == Leaf ==> p == HoleParent(ctx, Root(text[r])) && 0 <= p < N + 257 && (cmp >= 0 <==> !ctx.InLeft?)
                      && (cmp < 0 ==> p < N))
    && (t.Node? ==> t.idx == p && IsNode(p) && Window(text, p) == Window(text, r))
  }

  lemma WalkBegins(k: Links, text: Text, trees: seq<Tree>, r: int, pos: int)
    requires IsNode(r) && WellFormed(k, text, trees)
    ensures Walking(k, text, trees, Top, trees[text[r]], r, Root(text[r]), 1, pos, 0)
  {
    StartAtRoot(k, text, trees, r);
  }

  function Link(k: Links, p: int, cmp: int): int
    requires k.Sized() && 0 <= p < N + 257 && (cmp < 0 ==> p <= N)
  {
    if cmp >= 0 then k.r[p] else k.l[p]
  }

  lemma WalkLooks(k: Links, text: Text, trees: seq<Tree>, ctx: Ctx, t: Tree, r: int, p: int, cmp: int, pos: int,
      len: int)
    requires IsNode(r) && Walking(k, text, trees, ctx, t, r, p, cmp, pos, len)
    ensures k.Sized() && 0 <= len < F && 0 <= p < N + 257 && (cmp < 0 ==> p < N)
    ensures t == Leaf <==> Link(k, p, cmp) == NIL
    ensures t.Node? ==> t.idx == Link(k, p, cmp) && IsNode(t.idx) && text[t.idx] == text[r] && k.p[t.idx] != NIL
  {
    StepOnto(k, text, trees, ctx, t, r);
  }

  lemma WalkFindsLeaf(k: Links, text: Text, trees: seq<Tree>, ctx: Ctx, t: Tree, r: int, p: int, cmp: int, pos: int,
      len: int)
    requires IsNode(r) && Walking(k, text, trees, ctx, t, r, p, cmp, pos, len) && t == Leaf
    ensures k.Sized() && Arrived(k, text, trees, ctx, t, r, p, cmp) && IsLongestMatch(k, text, r, pos, len)
  {
    StepOnto(k, text, trees, ctx, t, r);
    BestAtLeaf(k, text, trees, ctx, r, pos, len);
  }

  lemma WalkFindsTwin(k: Links, text: Text, trees: seq<Tree>, ctx: Ctx, t: Tree, r: int, p: int, cmp: int, pos: int,
      len: int)
    requires IsNode(r) && Walking(k, text, trees, ctx, t, r, p, cmp, pos, len)
    requires t.Node? && IsNode(t.idx) && Shared(text, r, t.idx) == F
    ensures k.Sized() && Arrived(k, text, trees, ctx, t, r, t.idx, 0) && IsLongestMatch(k, text, r, t.idx, F)
  {
    StepOnto(k, text, trees, ctx, t, r);
    BestIsFull(k, text, r, t.idx);
  }

  lemma WalkTurns(k: Links, text: Text, trees: seq<Tree>, ctx: Ctx, t: Tree, r: int, p: int, cmp: int, pos: int,
      len: int, m: int, cmp': int)
    requires IsNode(r) && Walking(k, text, trees, ctx, t, r, p, cmp, pos, len)
    requires t.Node? && IsNode(t.idx) && m == Shared(text, r, t.idx) && 1 <= m < F && cmp' != 0
    requires cmp' > 0 ==> Less(Window(text, t.idx), Window(text, r))
    requires cmp' < 0 ==> Less(Window(text, r), Window(text, t.idx))
    ensures Walking(k, text, trees, NextCtx(ctx, t, cmp' >= 0), NextTree(t, cmp' >= 0), r, t.idx, cmp',
                    if m > len then t.idx else pos, if m > len then m else len)
  {
    Turn(k, text, trees, ctx, t, r, pos, len, cmp' >= 0);
  }

  /** The nodes in use. */
  ghost function LiveSet(k: Links): set<int>
    requires k.Sized()
  {
    set i | 0 <= i < N && k.p[i] != NIL
  }

  /** The live nodes that stand for the same string as r: at most one, see LiveWindowsDiffer. */
  ghost function Twins(k: Links, text: Text, r: int): set<int>
    requires k.Sized() && IsNode(r)
  {
    set i | 0 <= i < N && k.p[i] != NIL && Window(text, i) == Window(text, r)
  }

  /** Liveness, twins and longest matches depend on the parent links only. */
  lemma SameLive(k: Links, k': Links, text: Text, r: int)
    requires k.Sized() && k'.Sized() && IsNode(r) && k'.p == k.p
    ensures LiveSet(k') == LiveSet(k) && Twins(k', text, r) == Twins(k, text, r)
  {
  }

  lemma SameMatch(k: Links, k': Links, text: Text, r: int, pos: int, len: int)
    requires k.Sized() && k'.Sized() && IsNode(r) && k'.p == k.p && IsLongestMatch(k', text, r, pos, len)
    ensures IsLongestMatch(k, text, r, pos, len)
  {
  }

  lemma LiveAfterLeaf(k: Links, k': Links, text: Text, r: int, pos: int, len: int)
    requires k.Sized() && k'.Sized() && IsNode(r) && LiveChange(k, k', NIL, r)
    requires IsLongestMatch(k, text, r, pos, len) && len < F
    ensures LiveSet(k') == LiveSet(k) - Twins(k, text, r) + {r}
  {
    forall i | IsNode(i) && k.p[i] != NIL ensures Window(text, i) != Window(text, r) {
      LcpSymmetric(Window(text, r), Window(text, i));
    }
  }

  lemma LiveAfterReplacing(k: Links, k': Links, text: Text, trees: seq<Tree>, p: int, r: int)
    requires WellFormed(k, text, trees) && k'.Sized() && IsNode(r) && IsNode(p) && k.p[p] != NIL
    requires Window(text, p) == Window(text, r) && LiveChange(k, k', p, r)
    ensures LiveSet(k') == LiveSet(k) - Twins(k, text, r) + {r}
    ensures Twins(k, text, r) == {p}
  {
    forall i | i in Twins(k, text, r) ensures i == p {
      if i != p { LiveWindowsDiffer(k, text, trees, i, p); }
    }
  }

  /** The two ways the walk can end, carried out. */
  ghost predicate Inserted(k: Links, k': Links, text: Text, trees: seq<Tree>, trees': seq<Tree>, r: int)
    requires k.Sized() && k'.Sized() && IsNode(r)
  {
    WellFormed(k', text, trees') && LiveSet(k') == LiveSet(k) - Twins(k, text, r) + {r}
  }

  lemma InsertedLeaf(k: Links, text: Text, trees: seq<Tree>, ctx: Ctx, r: int, p: int, cmp: int, pos: int, len: int)
    requires IsNode(r) && Arrived(k, text, trees, ctx, Leaf, r, p, cmp)
    requires k.Sized() && k.p[r] == NIL && k.l[r] == NIL && k.r[r] == NIL
    requires IsLongestMatch(k, text, r, pos, len) && len < F
    ensures Inserted(k, Attach(k, p, cmp >= 0, r), text, trees, trees[text[r] := Plug(ctx, Node(Leaf, r, Leaf))], r)
  {
    InsertAsLeaf(k, text, trees, ctx, r);
    LiveAfterLeaf(k, Attach(k, p, cmp >= 0, r), text, r, pos, len);
  }

  lemma InsertedInPlace(k: Links, text: Text, trees: seq<Tree>, ctx: Ctx, t: Tree, r: int, p: int, cmp: int)
    requires IsNode(r) && Arrived(k, text, trees, ctx, t, r, p, cmp) && t.Node?
    requires k.Sized() && k.p[r] == NIL
    ensures CanReplace(k, p, r) && k.l[p] != r && k.r[p] != r
    ensures Inserted(k, TakeOver(Adopt(k, r, p), p, r), text, trees,
                     trees[text[r] := Plug(ctx, Node(t.left, r, t.right))], r)
  {
    InsertReplacing(k, text, trees, ctx, t.left, p, t.right, r);
    StepOnto(k, text, trees, ctx, t, r);
    LiveAfterReplacing(k, TakeOver(Adopt(k, r, p), p, r), text, trees, p, r);
  }
}
