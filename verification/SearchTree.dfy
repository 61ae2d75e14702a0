/**
 The binary search trees that the encoder threads through its lchild, rchild and parent arrays.
 A `Links` value is a snapshot of the three arrays; `Represents` says which tree a snapshot holds.
 A `Ctx` is a tree with one subtree cut out: the path the code has walked so far.
 */
module SearchTree {
  import opened Base
  import opened Lzss

  datatype Tree = Leaf | Node(left: Tree, idx: int, right: Tree)

  /** A tree with a hole.  The hole is the left (right) child of `idx`, or the whole tree. */
  datatype Ctx =
    | Top
    | InLeft(up: Ctx, idx: int, right: Tree)
    | InRight(up: Ctx, left: Tree, idx: int)

  /** Snapshot of the arrays lchild[N + 1], rchild[N + 257] and parent[N + 1]. */
  datatype Links = Links(l: seq<int>, r: seq<int>, p: seq<int>) {
    predicate Sized() {
      |l| == N + 1 && |r| == N + 257 && |p| == N + 1
    }
  }

  /** The slot of rchild that holds the root of the tree for first byte c. */
  function Root(c: Byte): (root: int)
    ensures N < root < N + 257
  {
    N + 1 + c
  }

  function Inorder(t: Tree): seq<int> {
    match t
    case Leaf => []
    case Node(a, i, b) => Inorder(a) + [i] + Inorder(b)
  }

  function Plug(ctx: Ctx, t: Tree): Tree {
    match ctx
    case Top => t
    case InLeft(up, i, b) => Plug(up, Node(t, i, b))
    case InRight(up, a, i) => Plug(up, Node(a, i, t))
  }

  /** What stands before (after) the hole in symmetric order. */
  function Before(ctx: Ctx): seq<int> {
    match ctx
    case Top => []
    case InLeft(up, i, b) => Before(up)
    case InRight(up, a, i) => Before(up) + Inorder(a) + [i]
  }

  function After(ctx: Ctx): seq<int> {
    match ctx
    case Top => []
    case InLeft(up, i, b) => [i] + Inorder(b) + After(up)
    case InRight(up, a, i) => After(up)
  }

  lemma Regroup(x: seq<int>, a: seq<int>, m: seq<int>, b: seq<int>, z: seq<int>)
    ensures x + (a + m + b) + z == x + a + (m + b + z)
    ensures x + (a + m + b) + z == (x + a + m) + b + z
  {
  }

  lemma {:induction false} InorderPlug(ctx: Ctx, t: Tree)
    ensures Inorder(Plug(ctx, t)) == Before(ctx) + Inorder(t) + After(ctx)
  {
    match ctx
    case Top =>
    case InLeft(up, i, b) =>
      InorderPlug(up, Node(t, i, b));
      Regroup(Before(up), Inorder(t), [i], Inorder(b), After(up));
    case InRight(up, a, i) =>
      InorderPlug(up, Node(a, i, t));
      Regroup(Before(up), Inorder(a), [i], Inorder(t), After(up));
  }

  /** Inner context below an outer one. */
  function Compose(outer: Ctx, inner: Ctx): Ctx {
    match inner
    case Top => outer
    case InLeft(up, i, b) => InLeft(Compose(outer, up), i, b)
    case InRight(up, a, i) => InRight(Compose(outer, up), a, i)
  }

  lemma {:induction false} PlugCompose(outer: Ctx, inner: Ctx, t: Tree)
    ensures Plug(Compose(outer, inner), t) == Plug(outer, Plug(inner, t))
    decreases inner
  {
    match inner
    case Top =>
    case InLeft(up, i, b) => PlugCompose(outer, up, Node(t, i, b));
    case InRight(up, a, i) => PlugCompose(outer, up, Node(a, i, t));
  }

  /** The parent of whatever fills the hole, and the link that points at it. */
  function HoleParent(ctx: Ctx, root: int): int {
    if ctx.Top? then root else ctx.idx
  }

  predicate IsNode(i: int) {
    0 <= i < N
  }

  function Slot(k: Links, ctx: Ctx, root: int): int
    requires k.Sized() && N < root < N + 257
    requires !ctx.Top? ==> IsNode(ctx.idx)
  {
    match ctx
    case Top => k.r[root]
    case InLeft(_, i, _) => k.l[i]
    case InRight(_, _, i) => k.r[i]
  }

  /** The links at index `at`, reached from parent `par`, hold exactly the tree t. */
  predicate Represents(k: Links, t: Tree, at: int, par: int)
    requires k.Sized()
  {
    match t
    case Leaf => at == NIL
    case Node(a, i, b) =>
      IsNode(i) && at == i && k.p[i] == par && Represents(k, a, k.l[i], i) && Represents(k, b, k.r[i], i)
  }

  /** The links hold everything of ctx; nothing is said about the link that fills the hole. */
  predicate RepresentsCtx(k: Links, ctx: Ctx, root: int)
    requires k.Sized() && N < root < N + 257
  {
    match ctx
    case Top => true
    case InLeft(up, i, b) =>
      IsNode(i) && RepresentsCtx(k, up, root) && Slot(k, up, root) == i && k.p[i] == HoleParent(up, root)
      && Represents(k, b, k.r[i], i)
    case InRight(up, a, i) =>
      IsNode(i) && RepresentsCtx(k, up, root) && Slot(k, up, root) == i && k.p[i] == HoleParent(up, root)
      && Represents(k, a, k.l[i], i)
  }

  lemma {:induction false} RepresentsPlug(k: Links, ctx: Ctx, t: Tree, root: int)
    requires k.Sized() && N < root < N + 257
    ensures Represents(k, Plug(ctx, t), k.r[root], root)
       <==> RepresentsCtx(k, ctx, root) && Represents(k, t, Slot(k, ctx, root), HoleParent(ctx, root))
    decreases ctx
  {
    match ctx
    case Top =>
    case InLeft(up, i, b) => RepresentsPlug(k, up, Node(t, i, b), root);
    case InRight(up, a, i) => RepresentsPlug(k, up, Node(a, i, t), root);
  }

  /** Every node index is a real one when the tree is represented. */
  lemma {:induction false} RepresentedNodes(k: Links, t: Tree, at: int, par: int)
    requires k.Sized() && Represents(k, t, at, par)
    ensures forall i :: i in Inorder(t) ==> IsNode(i)
  {
    match t
    case Leaf =>
    case Node(a, i, b) =>
      RepresentedNodes(k, a, k.l[i], i);
      RepresentedNodes(k, b, k.r[i], i);
  }

  /** The two snapshots agree on everything that belongs to node i. */
  predicate SameNode(k: Links, k': Links, i: int)
    requires k.Sized() && k'.Sized()
  {
    IsNode(i) ==> k.l[i] == k'.l[i] && k.r[i] == k'.r[i] && k.p[i] == k'.p[i]
  }

  lemma {:induction false} RepresentsFrame(k: Links, k': Links, t: Tree, at: int, par: int)
    requires k.Sized() && k'.Sized() && Represents(k, t, at, par)
    requires forall i :: i in Inorder(t) ==> SameNode(k, k', i)
    ensures Represents(k', t, at, par)
  {
    match t
    case Leaf =>
    case Node(a, i, b) =>
      assert i in Inorder(t) && SameNode(k, k', i);
      RepresentsFrame(k, k', a, k.l[i], i);
      RepresentsFrame(k, k', b, k.r[i], i);
  }

  /** A subtree moves under a new parent when only the parent link of its top node changes. */
  lemma RepresentsMove(k: Links, k': Links, t: Tree, at: int, par: int, par': int)
    requires k.Sized() && k'.Sized() && Represents(k, t, at, par)
    requires t.Node? ==> k'.p[at] == par' && k'.l[at] == k.l[at] && k'.r[at] == k.r[at]
    requires t.Node? ==> forall i :: i in Inorder(t.left) + Inorder(t.right) ==> SameNode(k, k', i)
    ensures Represents(k', t, at, par')
  {
    match t
    case Leaf =>
    case Node(a, i, b) =>
      RepresentsFrame(k, k', a, k.l[i], i);
      RepresentsFrame(k, k', b, k.r[i], i);
  }

  /** The nodes of ctx other than the one the hole hangs from. */
  function Outer(ctx: Ctx): seq<int> {
    match ctx
    case Top => []
    case InLeft(up, i, b) => Before(up) + Inorder(b) + After(up)
    case InRight(up, a, i) => Before(up) + Inorder(a) + After(up)
  }

  lemma {:induction false} RepresentsCtxFrame(k: Links, k': Links, ctx: Ctx, root: int)
    requires k.Sized() && k'.Sized() && N < root < N + 257
    requires RepresentsCtx(k, ctx, root)
    requires !ctx.Top? ==> k.r[root] == k'.r[root] && k.p[ctx.idx] == k'.p[ctx.idx]
    requires ctx.InLeft? ==> k.r[ctx.idx] == k'.r[ctx.idx]
    requires ctx.InRight? ==> k.l[ctx.idx] == k'.l[ctx.idx]
    requires forall i :: i in Outer(ctx) ==> SameNode(k, k', i)
    ensures RepresentsCtx(k', ctx, root)
  {
    match ctx
    case Top =>
    case InLeft(up, i, b) =>
      RepresentsFrame(k, k', b, k.r[i], i);
      if !up.Top? {
        assert up.idx in Outer(ctx) by { assert up.idx in Before(up) + After(up); }
        SameNodeAt(k, k', up.idx);
      }
      RepresentsCtxFrame(k, k', up, root);
    case InRight(up, a, i) =>
      RepresentsFrame(k, k', a, k.l[i], i);
      if !up.Top? {
        assert up.idx in Outer(ctx) by { assert up.idx in Before(up) + After(up); }
        SameNodeAt(k, k', up.idx);
      }
      RepresentsCtxFrame(k, k', up, root);
  }

  lemma SameNodeAt(k: Links, k': Links, i: int)
    requires k.Sized() && k'.Sized() && SameNode(k, k', i) && IsNode(i)
    ensures k.l[i] == k'.l[i] && k.r[i] == k'.r[i] && k.p[i] == k'.p[i]
  {
  }
}
