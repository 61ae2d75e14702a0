/**
 What the pointer edits of insert_node and delete_node do to a represented tree.
 Each edit is a function on snapshots of the link arrays; each lemma says which tree the edited
 snapshot holds.  Slot N of the parent array is scratch: edits may write it, trees never read it.
 */
module TreeEdits {
  import opened Lzss
  import opened SearchTree

  predicate NoDup(s: seq<int>) {
    forall u, v :: 0 <= u < v < |s| ==> s[u] != s[v]
  }

  /** r becomes a child of `par`: the two stores that end the descent of insert_node. */
  function Attach(k: Links, par: int, right: bool, r: int): Links
    requires k.Sized() && IsNode(r)
    requires 0 <= par < N + 257 && (!right ==> par < N)
  {
    var k1 := if right then k.(r := k.r[par := r]) else k.(l := k.l[par := r]);
    k1.(p := k1.p[r := par])
  }

  /** q takes the children of p. */
  function Adopt(k: Links, q: int, p: int): Links
    requires k.Sized() && IsNode(p) && IsNode(q)
    requires 0 <= k.l[p] <= N && 0 <= k.r[p] <= N
  {
    var k1 := k.(l := k.l[q := k.l[p]], r := k.r[q := k.r[p]]);
    k1.(p := k1.p[k.l[p] := q][k.r[p] := q])
  }

  /** q takes the place of p below p's parent, and p becomes unused. */
  function TakeOver(k: Links, p: int, q: int): Links
    requires k.Sized() && IsNode(p) && 0 <= q <= N
    requires 0 <= k.p[p] < N + 257 && (k.r[k.p[p]] != p ==> k.p[p] < N)
  {
    var par := k.p[p];
    var k1 := k.(p := k.p[q := par]);
    var k2 := if k1.r[par] == p then k1.(r := k1.r[par := q]) else k1.(l := k1.l[par := q]);
    k2.(p := k2.p[p := NIL])
  }

  /** The maximum q of a left subtree gives way to its own left child. */
  function Detach(k: Links, q: int): Links
    requires k.Sized() && IsNode(q) && IsNode(k.p[q]) && 0 <= k.l[q] <= N
  {
    k.(r := k.r[k.p[q] := k.l[q]], p := k.p[k.l[q] := k.p[q]])
  }

  /** The node a hole hangs from is met once; no node of ctx is inside the hole. */
  lemma CtxNodes(ctx: Ctx, s: seq<int>)
    requires NoDup(Before(ctx) + s + After(ctx))
    ensures !ctx.Top? ==> ctx.idx !in Outer(ctx) && ctx.idx !in s && ctx.idx in Before(ctx) + After(ctx)
    ensures forall i :: i in Outer(ctx) ==> i !in s && i in Before(ctx) + After(ctx)
  {
    NoDupParts(Before(ctx), s, After(ctx));
    OuterInside(ctx);
    if ctx.InLeft? {
      CtxNodesLeft(ctx, s);
    } else if ctx.InRight? {
      CtxNodesRight(ctx, s);
    }
  }

  lemma CtxNodesLeft(ctx: Ctx, s: seq<int>)
    requires ctx.InLeft? && NoDup(Before(ctx) + s + After(ctx))
    ensures ctx.idx !in Outer(ctx) && ctx.idx !in s
  {
    var first, rest := Before(ctx.up) + s, Inorder(ctx.right) + After(ctx.up);
    assert Before(ctx) + s + After(ctx) == first + [ctx.idx] + rest;
    Separated(first, ctx.idx, rest);
  }

  lemma CtxNodesRight(ctx: Ctx, s: seq<int>)
    requires ctx.InRight? && NoDup(Before(ctx) + s + After(ctx))
    ensures ctx.idx !in Outer(ctx) && ctx.idx !in s
  {
    var first, rest := Before(ctx.up) + Inorder(ctx.left), s + After(ctx.up);
    assert Before(ctx) + s + After(ctx) == first + [ctx.idx] + rest;
    Separated(first, ctx.idx, rest);
  }

  lemma OuterInside(ctx: Ctx)
    ensures forall i :: i in Outer(ctx) ==> i in Before(ctx) + After(ctx)
    ensures !ctx.Top? ==> ctx.idx in Before(ctx) + After(ctx)
  {
    if ctx.InLeft? {
      assert After(ctx)[0] == ctx.idx;
    } else if ctx.InRight? {
      assert Before(ctx)[|Before(ctx)| - 1] == ctx.idx;
    }
  }

  lemma Separated(x: seq<int>, i: int, y: seq<int>)
    requires NoDup(x + [i] + y)
    ensures i !in x && i !in y
  {
    var s := x + [i] + y;
    assert s[|x|] == i;
    forall u | 0 <= u < |x| ensures x[u] != i { assert s[u] == x[u]; }
    forall u | 0 <= u < |y| ensures y[u] != i { assert s[|x| + 1 + u] == y[u]; }
  }

  lemma NoDupParts(x: seq<int>, y: seq<int>, z: seq<int>)
    requires NoDup(x + y + z)
    ensures NoDup(y)
    ensures forall i :: i in x + z ==> i !in y
  {
    var s := x + y + z;
    forall u, v | 0 <= u < v < |y| ensures y[u] != y[v] {
      assert s[|x| + u] == y[u] && s[|x| + v] == y[v];
    }
    forall u, v | 0 <= u < |x| && 0 <= v < |y| ensures x[u] != y[v] {
      assert s[u] == x[u] && s[|x| + v] == y[v];
    }
    forall u, v | 0 <= u < |z| && 0 <= v < |y| ensures z[u] != y[v] {
      assert s[|x| + |y| + u] == z[u] && s[|x| + v] == y[v];
    }
  }

  lemma AttachLeaf(k: Links, ctx: Ctx, root: int, r: int)
    requires k.Sized() && N < root < N + 257 && IsNode(r)
    requires RepresentsCtx(k, ctx, root)
    requires k.l[r] == NIL && k.r[r] == NIL
    requires NoDup(Before(ctx) + [r] + After(ctx))
    ensures var k' := Attach(k, HoleParent(ctx, root), !ctx.InLeft?, r);
            Represents(k', Plug(ctx, Node(Leaf, r, Leaf)), k'.r[root], root)
  {
    var k' := Attach(k, HoleParent(ctx, root), !ctx.InLeft?, r);
    CtxNodes(ctx, [r]);
    assert forall i :: i in Outer(ctx) ==> i != r;
    RepresentsCtxFrame(k, k', ctx, root);
    RepresentsPlug(k', ctx, Node(Leaf, r, Leaf), root);
  }

  /** The link to a represented tree is NIL or its top node. */
  lemma TopNode(k: Links, t: Tree, at: int, par: int)
    requires k.Sized() && Represents(k, t, at, par)
    ensures 0 <= at <= N
    ensures at != NIL ==> t.Node? && t.idx == at && at in Inorder(t)
    ensures at == NIL ==> t == Leaf
  {
  }

  lemma Disjoint(a: Tree, p: int, b: Tree)
    requires NoDup(Inorder(Node(a, p, b)))
    ensures forall i :: i in Inorder(a) ==> i !in Inorder(b)
    ensures NoDup(Inorder(a)) && NoDup(Inorder(b))
  {
    var x, y := Inorder(a), Inorder(b);
    assert Inorder(Node(a, p, b)) == [] + x + ([p] + y);
    NoDupParts([], x, [p] + y);
    assert Inorder(Node(a, p, b)) == (x + [p]) + y + [];
    NoDupParts(x + [p], y, []);
  }

  /** The node at the hole of ctx is p: where its parent link leads, and which child link is p. */
  lemma HoleFacts(k: Links, ctx: Ctx, root: int, a: Tree, p: int, b: Tree)
    requires k.Sized() && N < root < N + 257
    requires Represents(k, Plug(ctx, Node(a, p, b)), k.r[root], root)
    requires NoDup(Before(ctx) + Inorder(Node(a, p, b)) + After(ctx))
    ensures IsNode(p) && RepresentsCtx(k, ctx, root) && Represents(k, Node(a, p, b), p, HoleParent(ctx, root))
    ensures k.p[p] == HoleParent(ctx, root) && Slot(k, ctx, root) == p
    ensures ctx.InLeft? <==> k.r[k.p[p]] != p
    ensures 0 <= k.p[p] < N + 257 && k.p[p] != p && k.p[p] != N
  {
    RepresentsPlug(k, ctx, Node(a, p, b), root);
    CtxNodes(ctx, Inorder(Node(a, p, b)));
    assert p in Inorder(Node(a, p, b));
    if ctx.InLeft? {
      assert Represents(k, ctx.right, k.r[ctx.idx], ctx.idx);
      if ctx.right.Node? {
        assert ctx.right.idx in Inorder(ctx.right);
        assert ctx.right.idx in Outer(ctx);
      }
    }
  }

  /** The children of a subtree's top node are not the top node itself. */
  lemma BelowTop(t: Tree, at: int)
    requires t.Node? ==> t.idx == at
    requires NoDup(Inorder(t))
    ensures t.Node? ==> forall i :: i in Inorder(t.left) + Inorder(t.right) ==> i in Inorder(t) && i != at
  {
    if t.Node? {
      Separated(Inorder(t.left), t.idx, Inorder(t.right));
    }
  }

  /** A node outside the tree replaces p and keeps p's two subtrees. */
  lemma ReplaceNode(k: Links, ctx: Ctx, root: int, a: Tree, p: int, b: Tree, q: int)
    requires k.Sized() && N < root < N + 257 && IsNode(q)
    requires Represents(k, Plug(ctx, Node(a, p, b)), k.r[root], root)
    requires NoDup(Before(ctx) + Inorder(Node(a, p, b)) + After(ctx))
    requires q !in Before(ctx) + Inorder(Node(a, p, b)) + After(ctx)
    ensures CanReplace(k, p, q)
    ensures var k' := TakeOver(Adopt(k, q, p), p, q);
            Represents(k', Plug(ctx, Node(a, q, b)), k'.r[root], root)
  {
    ReplaceReady(k, ctx, root, a, p, b, q);
    var k' := TakeOver(Adopt(k, q, p), p, q);
    ReplaceSubtrees(k, k', a, p, b, q, HoleParent(ctx, root));
    ReplaceCtx(k, k', ctx, root, a, p, b, q);
    RepresentsPlug(k', ctx, Node(a, q, b), root);
  }

  lemma ReplaceReady(k: Links, ctx: Ctx, root: int, a: Tree, p: int, b: Tree, q: int)
    requires k.Sized() && N < root < N + 257 && IsNode(q)
    requires Represents(k, Plug(ctx, Node(a, p, b)), k.r[root], root)
    requires NoDup(Before(ctx) + Inorder(Node(a, p, b)) + After(ctx))
    requires q !in Before(ctx) + Inorder(Node(a, p, b)) + After(ctx)
    ensures CanReplace(k, p, q) && k.p[p] == HoleParent(ctx, root) && k.p[p] !in Inorder(Node(a, p, b))
    ensures Represents(k, Node(a, p, b), p, k.p[p]) && NoDup(Inorder(Node(a, p, b)))
    ensures RepresentsCtx(k, ctx, root) && Slot(k, ctx, root) == p
    ensures ctx.InLeft? <==> k.r[k.p[p]] != p
  {
    HoleFacts(k, ctx, root, a, p, b);
    RepresentedNodes(k, Node(a, p, b), p, HoleParent(ctx, root));
    TopNode(k, a, k.l[p], p);
    TopNode(k, b, k.r[p], p);
    NoDupParts(Before(ctx), Inorder(Node(a, p, b)), After(ctx));
    HoleIsElsewhere(ctx, Inorder(Node(a, p, b)));
    Separated(Inorder(a), p, Inorder(b));
  }

  /** p and its children are inside the hole. */
  lemma HoleMembers(k: Links, a: Tree, p: int, b: Tree)
    requires k.Sized() && IsNode(p) && Represents(k, Node(a, p, b), p, k.p[p])
    ensures 0 <= k.l[p] <= N && 0 <= k.r[p] <= N
    ensures p in Inorder(Node(a, p, b))
    ensures k.l[p] == NIL || k.l[p] in Inorder(Node(a, p, b))
    ensures k.r[p] == NIL || k.r[p] in Inorder(Node(a, p, b))
  {
    TopNode(k, a, k.l[p], p);
    TopNode(k, b, k.r[p], p);
    assert forall i :: i in Inorder(a) || i in Inorder(b) ==> i in Inorder(Node(a, p, b));
  }

  lemma ReplacedOutside(k: Links, k': Links, ctx: Ctx, root: int, a: Tree, p: int, b: Tree, q: int)
    requires k.Sized() && k'.Sized() && N < root < N + 257 && CanReplace(k, p, q) && Swapped(k, k', p, q)
    requires k.p[p] == HoleParent(ctx, root) && Represents(k, Node(a, p, b), p, k.p[p])
    requires NoDup(Before(ctx) + Inorder(Node(a, p, b)) + After(ctx))
    requires q !in Before(ctx) + Inorder(Node(a, p, b)) + After(ctx)
    ensures forall i :: i in Outer(ctx) ==> SameNode(k, k', i)
    ensures !ctx.Top? ==> ctx.idx != p && ctx.idx != q
    ensures !ctx.Top? ==> (k.l[p] != NIL ==> ctx.idx != k.l[p]) && (k.r[p] != NIL ==> ctx.idx != k.r[p])
  {
    CtxNodes(ctx, Inorder(Node(a, p, b)));
    HoleMembers(k, a, p, b);
    forall i | i in Outer(ctx) && IsNode(i) ensures SameNode(k, k', i) {
      assert i != p && i != q && i != k.l[p] && i != k.r[p] && i != k.p[p];
    }
  }

  lemma ReplaceCtx(k: Links, k': Links, ctx: Ctx, root: int, a: Tree, p: int, b: Tree, q: int)
    requires k.Sized() && N < root < N + 257 && CanReplace(k, p, q)
    requires k.p[p] == HoleParent(ctx, root) && Represents(k, Node(a, p, b), p, k.p[p])
    requires RepresentsCtx(k, ctx, root) && Slot(k, ctx, root) == p
    requires ctx.InLeft? <==> k.r[k.p[p]] != p
    requires NoDup(Before(ctx) + Inorder(Node(a, p, b)) + After(ctx))
    requires q !in Before(ctx) + Inorder(Node(a, p, b)) + After(ctx)
    requires k' == TakeOver(Adopt(k, q, p), p, q)
    ensures RepresentsCtx(k', ctx, root) && Slot(k', ctx, root) == q
  {
    Replacement(k, k', p, q);
    ReplacedOutside(k, k', ctx, root, a, p, b, q);
    RepresentsCtxFrame(k, k', ctx, root);
  }

  predicate CanReplace(k: Links, p: int, q: int)
    requires k.Sized()
  {
    && IsNode(p) && IsNode(q) && q != p
    && 0 <= k.l[p] <= N && 0 <= k.r[p] <= N
    && 0 <= k.p[p] < N + 257 && k.p[p] != p && k.p[p] != q && k.p[p] != N && k.l[p] != p && k.r[p] != p
    && (k.r[k.p[p]] != p ==> k.p[p] < N)
  }

  lemma HoleIsElsewhere(ctx: Ctx, s: seq<int>)
    requires NoDup(Before(ctx) + s + After(ctx))
    ensures !ctx.Top? ==> ctx.idx !in s && ctx.idx in Before(ctx) + s + After(ctx)
  {
    CtxNodes(ctx, s);
  }

  lemma ReplaceSubtrees(k: Links, k': Links, a: Tree, p: int, b: Tree, q: int, par: int)
    requires k.Sized() && CanReplace(k, p, q) && par == k.p[p]
    requires Represents(k, Node(a, p, b), p, par)
    requires NoDup(Inorder(Node(a, p, b)))
    requires q !in Inorder(Node(a, p, b)) && par !in Inorder(Node(a, p, b))
    requires k' == TakeOver(Adopt(k, q, p), p, q)
    ensures Represents(k', Node(a, q, b), q, par)
  {
    TopNode(k, a, k.l[p], p);
    TopNode(k, b, k.r[p], p);
    Separated(Inorder(a), p, Inorder(b));
    Disjoint(a, p, b);
    Replacement(k, k', p, q);
    MoveChild(k, k', a, k.l[p], k.r[p], p, q);
    MoveChild(k, k', b, k.r[p], k.l[p], p, q);
  }

  /** Node by node, what replacing p by q does to everything but q itself. */
  ghost predicate Swapped(k: Links, k': Links, p: int, q: int)
    requires k.Sized() && k'.Sized() && CanReplace(k, p, q)
  {
    && (forall i :: IsNode(i) && i != p && i != q && i != k.p[p] && i != k.l[p] && i != k.r[p] ==> SameNode(k, k', i))
    && (forall i :: IsNode(i) && i != p && i != q && i != k.p[p] && (i == k.l[p] || i == k.r[p])
                  ==> k'.p[i] == q && k'.l[i] == k.l[i] && k'.r[i] == k.r[i])
  }

  lemma Replacement(k: Links, k': Links, p: int, q: int)
    requires k.Sized() && CanReplace(k, p, q) && k' == TakeOver(Adopt(k, q, p), p, q)
    ensures Swapped(k, k', p, q)
  {
  }

  /** One of the two subtrees of p moves under q. */
  lemma MoveChild(k: Links, k': Links, t: Tree, at: int, other: int, p: int, q: int)
    requires k.Sized() && k'.Sized() && CanReplace(k, p, q) && Swapped(k, k', p, q)
    requires Represents(k, t, at, p) && NoDup(Inorder(t))
    requires (at == k.l[p] && other == k.r[p]) || (at == k.r[p] && other == k.l[p])
    requires other != NIL ==> other !in Inorder(t)
    requires p !in Inorder(t) && q !in Inorder(t) && k.p[p] !in Inorder(t)
    ensures Represents(k', t, at, q)
  {
    TopNode(k, t, at, p);
    BelowTop(t, at);
    RepresentsMove(k, k', t, at, p, q);
  }

  /** t is the only subtree of p that may be nonempty, and q is the link to it. */
  predicate OnlyChild(k: Links, a: Tree, p: int, b: Tree, t: Tree, q: int)
    requires k.Sized()
  {
    && IsNode(p) && 0 <= q <= N && q != p
    && 0 <= k.p[p] < N + 257 && k.p[p] != p && k.p[p] != N && (k.r[k.p[p]] != p ==> k.p[p] < N)
    && (a == Leaf || b == Leaf)
    && (if b == Leaf then t == a && q == k.l[p] else t == b && q == k.r[p])
  }

  /** A node with at most one child is replaced by that child. */
  lemma BypassNode(k: Links, ctx: Ctx, root: int, a: Tree, p: int, b: Tree)
    requires k.Sized() && N < root < N + 257
    requires Represents(k, Plug(ctx, Node(a, p, b)), k.r[root], root)
    requires NoDup(Before(ctx) + Inorder(Node(a, p, b)) + After(ctx))
    requires a == Leaf || b == Leaf
    ensures IsNode(p) && (b == Leaf <==> k.r[p] == NIL) && (a == Leaf <==> k.l[p] == NIL)
    ensures var t, q := if b == Leaf then a else b, if b == Leaf then k.l[p] else k.r[p];
            OnlyChild(k, a, p, b, t, q) &&
            var k' := TakeOver(k, p, q);
            Represents(k', Plug(ctx, t), k'.r[root], root)
  {
    RepresentsPlug(k, ctx, Node(a, p, b), root);
    var t, q := if b == Leaf then a else b, if b == Leaf then k.l[p] else k.r[p];
    BypassReady(k, ctx, root, a, p, b, t, q);
    var k' := TakeOver(k, p, q);
    BypassSubtree(k, k', a, p, b, t, q, HoleParent(ctx, root));
    BypassCtx(k, k', ctx, root, a, p, b, t, q);
    RepresentsPlug(k', ctx, t, root);
  }

  lemma BypassReady(k: Links, ctx: Ctx, root: int, a: Tree, p: int, b: Tree, t: Tree, q: int)
    requires k.Sized() && N < root < N + 257
    requires Represents(k, Plug(ctx, Node(a, p, b)), k.r[root], root)
    requires NoDup(Before(ctx) + Inorder(Node(a, p, b)) + After(ctx))
    requires a == Leaf || b == Leaf
    requires IsNode(p) && if b == Leaf then t == a && q == k.l[p] else t == b && q == k.r[p]
    ensures OnlyChild(k, a, p, b, t, q)
    ensures (b == Leaf <==> k.r[p] == NIL) && (a == Leaf <==> k.l[p] == NIL)
    ensures k.p[p] == HoleParent(ctx, root) && k.p[p] !in Inorder(Node(a, p, b))
    ensures Represents(k, t, q, p) && NoDup(Inorder(Node(a, p, b)))
    ensures RepresentsCtx(k, ctx, root) && Slot(k, ctx, root) == p
    ensures ctx.InLeft? <==> k.r[k.p[p]] != p
  {
    HoleFacts(k, ctx, root, a, p, b);
    RepresentedNodes(k, Node(a, p, b), p, HoleParent(ctx, root));
    TopNode(k, a, k.l[p], p);
    TopNode(k, b, k.r[p], p);
    NoDupParts(Before(ctx), Inorder(Node(a, p, b)), After(ctx));
    HoleIsElsewhere(ctx, Inorder(Node(a, p, b)));
    Separated(Inorder(a), p, Inorder(b));
  }

  lemma BypassSubtree(k: Links, k': Links, a: Tree, p: int, b: Tree, t: Tree, q: int, par: int)
    requires k.Sized() && OnlyChild(k, a, p, b, t, q) && par == k.p[p]
    requires Represents(k, t, q, p)
    requires NoDup(Inorder(Node(a, p, b))) && par !in Inorder(Node(a, p, b))
    requires k' == TakeOver(k, p, q)
    ensures Represents(k', t, q, par)
  {
    TopNode(k, t, q, p);
    Separated(Inorder(a), p, Inorder(b));
    Disjoint(a, p, b);
    BelowTop(t, q);
    RepresentsMove(k, k', t, q, p, par);
  }

  lemma BypassCtx(k: Links, k': Links, ctx: Ctx, root: int, a: Tree, p: int, b: Tree, t: Tree, q: int)
    requires k.Sized() && N < root < N + 257 && OnlyChild(k, a, p, b, t, q)
    requires k.p[p] == HoleParent(ctx, root) && (ctx.InLeft? <==> k.r[k.p[p]] != p)
    requires RepresentsCtx(k, ctx, root) && Slot(k, ctx, root) == p
    requires Represents(k, t, q, p)
    requires NoDup(Before(ctx) + Inorder(Node(a, p, b)) + After(ctx))
    requires k' == TakeOver(k, p, q)
    ensures RepresentsCtx(k', ctx, root) && Slot(k', ctx, root) == q
  {
    CtxNodes(ctx, Inorder(Node(a, p, b)));
    TopNode(k, t, q, p);
    assert p in Inorder(Node(a, p, b)) && (q == NIL || q in Inorder(Node(a, p, b)));
    forall i | i in Outer(ctx) && IsNode(i) ensures SameNode(k, k', i) {
      assert i != p && i != q && i != k.p[p];
    }
    RepresentsCtxFrame(k, k', ctx, root);
  }

  /** q takes only the right child of p: q is p's left child and keeps its own left child. */
  function AdoptRight(k: Links, q: int, p: int): Links
    requires k.Sized() && IsNode(p) && IsNode(q) && 0 <= k.r[p] <= N
  {
    k.(r := k.r[q := k.r[p]], p := k.p[k.r[p] := q])
  }

  /** The predecessor of p is its left child: it moves up and takes p's right subtree. */
  lemma RaiseLeft(k: Links, ctx: Ctx, root: int, qa: Tree, q: int, p: int, b: Tree)
    requires k.Sized() && N < root < N + 257
    requires Represents(k, Plug(ctx, Node(Node(qa, q, Leaf), p, b)), k.r[root], root)
    requires NoDup(Before(ctx) + Inorder(Node(Node(qa, q, Leaf), p, b)) + After(ctx))
    ensures CanRaise(k, p, q)
    ensures var k' := TakeOver(AdoptRight(k, q, p), p, q);
            Represents(k', Plug(ctx, Node(qa, q, b)), k'.r[root], root)
  {
    RaiseReady(k, ctx, root, qa, q, p, b);
    var k' := TakeOver(AdoptRight(k, q, p), p, q);
    Raising(k, k', p, q);
    RaiseSubtrees(k, k', qa, q, p, b, HoleParent(ctx, root));
    RaiseCtx(k, k', ctx, root, qa, q, p, b);
    RepresentsPlug(k', ctx, Node(qa, q, b), root);
  }

  predicate CanRaise(k: Links, p: int, q: int)
    requires k.Sized()
  {
    && IsNode(p) && IsNode(q) && q != p && k.l[p] == q && k.p[q] == p
    && 0 <= k.r[p] <= N && k.r[p] != p && k.r[p] != q
    && 0 <= k.p[p] < N + 257 && k.p[p] != p && k.p[p] != q && k.p[p] != N
    && (k.r[k.p[p]] != p ==> k.p[p] < N)
  }

  lemma RaiseReady(k: Links, ctx: Ctx, root: int, qa: Tree, q: int, p: int, b: Tree)
    requires k.Sized() && N < root < N + 257
    requires Represents(k, Plug(ctx, Node(Node(qa, q, Leaf), p, b)), k.r[root], root)
    requires NoDup(Before(ctx) + Inorder(Node(Node(qa, q, Leaf), p, b)) + After(ctx))
    ensures CanRaise(k, p, q)
    ensures k.p[p] == HoleParent(ctx, root) && k.p[p] !in Inorder(Node(Node(qa, q, Leaf), p, b))
    ensures Represents(k, Node(Node(qa, q, Leaf), p, b), p, k.p[p])
    ensures NoDup(Inorder(Node(Node(qa, q, Leaf), p, b)))
    ensures RepresentsCtx(k, ctx, root) && Slot(k, ctx, root) == p
    ensures ctx.InLeft? <==> k.r[k.p[p]] != p
  {
    var a := Node(qa, q, Leaf);
    HoleFacts(k, ctx, root, a, p, b);
    RepresentedNodes(k, Node(a, p, b), p, HoleParent(ctx, root));
    TopNode(k, a, k.l[p], p);
    TopNode(k, b, k.r[p], p);
    NoDupParts(Before(ctx), Inorder(Node(a, p, b)), After(ctx));
    HoleIsElsewhere(ctx, Inorder(Node(a, p, b)));
    Separated(Inorder(a), p, Inorder(b));
    Disjoint(a, p, b);
    assert q in Inorder(a);
  }

  /** What raising q into p's place changes. */
  ghost predicate Raised(k: Links, k': Links, p: int, q: int)
    requires k.Sized() && k'.Sized() && CanRaise(k, p, q)
  {
    && k'.l[q] == k.l[q] && k'.r[q] == k.r[p] && k'.p[q] == k.p[p]
    && (IsNode(k.r[p]) && k.r[p] != k.p[p]
        ==> k'.p[k.r[p]] == q && k'.l[k.r[p]] == k.l[k.r[p]] && k'.r[k.r[p]] == k.r[k.r[p]])
    && (forall i :: IsNode(i) && i != p && i != q && i != k.r[p] && i != k.p[p] ==> SameNode(k, k', i))
  }

  lemma Raising(k: Links, k': Links, p: int, q: int)
    requires k.Sized() && CanRaise(k, p, q) && k' == TakeOver(AdoptRight(k, q, p), p, q)
    ensures k'.Sized() && Raised(k, k', p, q)
  {
  }

  lemma RaiseSubtrees(k: Links, k': Links, qa: Tree, q: int, p: int, b: Tree, par: int)
    requires k.Sized() && k'.Sized() && CanRaise(k, p, q) && par == k.p[p]
    requires Represents(k, Node(Node(qa, q, Leaf), p, b), p, par)
    requires NoDup(Inorder(Node(Node(qa, q, Leaf), p, b)))
    requires par !in Inorder(Node(Node(qa, q, Leaf), p, b))
    requires Raised(k, k', p, q)
    ensures Represents(k', Node(qa, q, b), q, par)
  {
    RaisedApart(k, qa, q, p, b);
    RepresentsFrame(k, k', qa, k.l[q], q);
    RaisedRight(k, k', p, q, b);
  }

  lemma RaisedRight(k: Links, k': Links, p: int, q: int, b: Tree)
    requires k.Sized() && k'.Sized() && CanRaise(k, p, q) && Raised(k, k', p, q)
    requires Represents(k, b, k.r[p], p) && NoDup(Inorder(b))
    requires p !in Inorder(b) && q !in Inorder(b) && k.p[p] !in Inorder(b)
    ensures Represents(k', b, k.r[p], q)
  {
    TopNode(k, b, k.r[p], p);
    BelowTop(b, k.r[p]);
    RepresentsMove(k, k', b, k.r[p], p, q);
  }

  lemma RaisedApart(k: Links, qa: Tree, q: int, p: int, b: Tree)
    requires k.Sized() && CanRaise(k, p, q) && NoDup(Inorder(Node(Node(qa, q, Leaf), p, b)))
    requires Represents(k, Node(Node(qa, q, Leaf), p, b), p, k.p[p])
    requires k.p[p] !in Inorder(Node(Node(qa, q, Leaf), p, b))
    ensures forall i :: i in Inorder(qa) && IsNode(i) ==> i != p && i != q && i != k.r[p] && i != k.p[p]
    ensures p !in Inorder(b) && q !in Inorder(b) && k.p[p] !in Inorder(b) && NoDup(Inorder(b))
  {
    var a := Node(qa, q, Leaf);
    TopNode(k, b, k.r[p], p);
    Separated(Inorder(a), p, Inorder(b));
    Disjoint(a, p, b);
    Separated(Inorder(qa), q, Inorder(Leaf));
    assert q in Inorder(a) && forall i :: i in Inorder(qa) ==> i in Inorder(a);
    assert forall i :: i in Inorder(a) || i in Inorder(b) ==> i in Inorder(Node(a, p, b));
  }

  lemma RaisedMembers(k: Links, qa: Tree, q: int, p: int, b: Tree)
    requires k.Sized() && IsNode(p) && Represents(k, Node(Node(qa, q, Leaf), p, b), p, k.p[p])
    ensures var s := Inorder(Node(Node(qa, q, Leaf), p, b));
            q in s && p in s && (k.r[p] != NIL ==> k.r[p] in s)
  {
    TopNode(k, b, k.r[p], p);
    assert Inorder(Node(qa, q, Leaf))[|Inorder(qa)|] == q;
    assert q in Inorder(Node(qa, q, Leaf));
  }

  lemma RaisedOutside(k: Links, k': Links, ctx: Ctx, root: int, qa: Tree, q: int, p: int, b: Tree)
    requires k.Sized() && k'.Sized() && N < root < N + 257 && CanRaise(k, p, q) && Raised(k, k', p, q)
    requires k.p[p] == HoleParent(ctx, root) && Represents(k, Node(Node(qa, q, Leaf), p, b), p, k.p[p])
    requires NoDup(Before(ctx) + Inorder(Node(Node(qa, q, Leaf), p, b)) + After(ctx))
    ensures forall i :: i in Outer(ctx) ==> SameNode(k, k', i)
    ensures !ctx.Top? ==> ctx.idx != p && ctx.idx != q && (k.r[p] != NIL ==> ctx.idx != k.r[p])
  {
    CtxNodes(ctx, Inorder(Node(Node(qa, q, Leaf), p, b)));
    RaisedMembers(k, qa, q, p, b);
    forall i | i in Outer(ctx) && IsNode(i) ensures SameNode(k, k', i) {
      assert i != p && i != q && i != k.r[p] && i != k.p[p];
    }
  }

  lemma RaiseCtx(k: Links, k': Links, ctx: Ctx, root: int, qa: Tree, q: int, p: int, b: Tree)
    requires k.Sized() && N < root < N + 257 && CanRaise(k, p, q)
    requires k.p[p] == HoleParent(ctx, root) && Represents(k, Node(Node(qa, q, Leaf), p, b), p, k.p[p])
    requires RepresentsCtx(k, ctx, root) && Slot(k, ctx, root) == p
    requires ctx.InLeft? <==> k.r[k.p[p]] != p
    requires NoDup(Before(ctx) + Inorder(Node(Node(qa, q, Leaf), p, b)) + After(ctx))
    requires k' == TakeOver(AdoptRight(k, q, p), p, q)
    ensures RepresentsCtx(k', ctx, root) && Slot(k', ctx, root) == q
  {
    Raising(k, k', p, q);
    RaisedOutside(k, k', ctx, root, qa, q, p, b);
    RepresentsCtxFrame(k, k', ctx, root);
  }

  /** The rightmost node of a subtree is replaced by its own left subtree. */
  lemma DetachMax(k: Links, ctx: Ctx, root: int, qa: Tree, q: int)
    requires k.Sized() && N < root < N + 257 && ctx.InRight?
    requires Represents(k, Plug(ctx, Node(qa, q, Leaf)), k.r[root], root)
    requires NoDup(Before(ctx) + Inorder(Node(qa, q, Leaf)) + After(ctx))
    ensures IsNode(q) && IsNode(k.p[q]) && k.p[q] == ctx.idx && 0 <= k.l[q] <= N && k.l[q] != q
    ensures var k' := Detach(k, q); Represents(k', Plug(ctx, qa), k'.r[root], root)
  {
    HoleFacts(k, ctx, root, qa, q, Leaf);
    TopNode(k, qa, k.l[q], q);
    var k' := Detach(k, q);
    NoDupParts(Before(ctx), Inorder(Node(qa, q, Leaf)), After(ctx));
    Separated(Inorder(qa), q, Inorder(Leaf));
    CtxNodes(ctx, Inorder(Node(qa, q, Leaf)));
    Disjoint(qa, q, Leaf);
    RepresentedNodes(k, qa, k.l[q], q);
    BelowTop(qa, k.l[q]);
    RepresentsMove(k, k', qa, k.l[q], q, ctx.idx);
    RepresentsCtxFrame(k, k', ctx, root);
    RepresentsPlug(k', ctx, qa, root);
  }
}
