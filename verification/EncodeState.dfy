/**
 The encoder state of the LZSS code: the three link arrays, the text window and the last match,
 with the two operations that edit the trees in place.
 */
module Encoder {
  import opened Base
  import opened Lzss
  import opened SearchTree
  import opened TreeEdits
  import opened Forest
  import opened Descent
  import opened Removal

  /** What a driver may ask for between two moves of the window. */
  datatype Op = Insert(node: int) | Delete(node: int)

  /** The set of nodes in use after one operation: insertion retires an equal string, deletion the node itself. */
  ghost function Step(text: Text, live: set<int>, op: Op): set<int>
    requires IsNode(op.node)
  {
    match op
    case Insert(r) => (set j | j in live && !(IsNode(j) && Window(text, j) == Window(text, r))) + {r}
    case Delete(p) => live - {p}
  }

  ghost function Outcome(text: Text, live: set<int>, ops: seq<Op>): set<int>
    requires forall op :: op in ops ==> IsNode(op.node)
    decreases |ops|
  {
    if ops == [] then live else Outcome(text, Step(text, live, ops[0]), ops[1..])
  }

  /** insert_node may be called only for a node that is not in use. */
  ghost predicate Enabled(text: Text, live: set<int>, ops: seq<Op>)
    requires forall op :: op in ops ==> IsNode(op.node)
    decreases |ops|
  {
    ops == [] ||
    ((ops[0].Insert? ==> ops[0].node !in live) && Enabled(text, Step(text, live, ops[0]), ops[1..]))
  }

  /** No two of the nodes stand for the same string. */
  ghost predicate AllDiffer(text: Text, live: set<int>) {
    && (forall i :: i in live ==> IsNode(i))
    && (forall i, j :: i in live && j in live && i != j && IsNode(i) && IsNode(j)
         ==> Window(text, i) != Window(text, j))
  }

  /** Over every run the dictionary holds each string once, under the index of its latest insertion. */
  lemma {:induction false} RunKeepsDiffering(text: Text, live: set<int>, ops: seq<Op>)
    requires forall op :: op in ops ==> IsNode(op.node)
    requires AllDiffer(text, live)
    ensures AllDiffer(text, Outcome(text, live, ops))
    ensures ops != [] && ops[|ops| - 1].Insert? ==> ops[|ops| - 1].node in Outcome(text, live, ops)
    ensures ops != [] && ops[|ops| - 1].Delete? ==> ops[|ops| - 1].node !in Outcome(text, live, ops)
    decreases |ops|
  {
    if ops != [] {
      RunKeepsDiffering(text, Step(text, live, ops[0]), ops[1..]);
    }
  }

  /** The trees depend on the text only through the windows of live nodes: a driver may overwrite the rest. */
  lemma OverwriteDeadText(k: Links, text: Text, text': Text, trees: seq<Tree>)
    requires WellFormed(k, text, trees)
    requires forall i :: IsNode(i) && k.p[i] != NIL ==> Window(text, i) == Window(text', i)
    ensures WellFormed(k, text', trees)
  {
    forall i | IsNode(i) && k.p[i] != NIL ensures text[i] == text'[i] {
      assert Window(text, i)[0] == text[i] && Window(text', i)[0] == text'[i];
    }
    forall c: Byte ensures TreeOk(k, text', trees[c], c) {
      assert TreeOk(k, text, trees[c], c);
      RepresentedAreLive(k, trees[c], k.r[Root(c)], Root(c));
      SameOrder(k, text, text', Inorder(trees[c]));
    }
  }

  lemma SameOrder(k: Links, text: Text, text': Text, s: seq<int>)
    requires k.Sized() && AreNodes(s) && Sorted(text, s)
    requires forall i :: i in s ==> IsNode(i) && Window(text, i) == Window(text', i)
    ensures Sorted(text', s)
  {
    forall u, v | 0 <= u < v < |s| ensures Less(Window(text', s[u]), Window(text', s[v])) {
      assert s[u] in s && s[v] in s;
      assert Less(Window(text, s[u]), Window(text, s[v]));
    }
  }

  class EncodeState {
    const lchild: array<int>
    const rchild: array<int>
    const parent: array<int>
    const textBuf: array<Byte>
    var matchPosition: int
    var matchLength: int

    /** The trees that the link arrays hold, one for each first byte. */
    ghost var trees: seq<Tree>

    ghost predicate Shape() {
      && lchild.Length == N + 1
      && rchild.Length == N + 257
      && parent.Length == N + 1
      && textBuf.Length == N + F - 1
      && lchild != rchild && lchild != parent && rchild != parent
    }

    ghost function View(): (k: Links)
      requires Shape()
      reads lchild, rchild, parent
      ensures k.Sized()
    {
      Links(lchild[..], rchild[..], parent[..])
    }

    ghost function TextView(): Text
      requires Shape()
      reads textBuf
    {
      textBuf[..]
    }

    /** The nodes in use. */
    ghost function Live(): set<int>
      requires Shape()
      reads lchild, rchild, parent
    {
      LiveSet(View())
    }

    ghost predicate Valid()
      reads this, lchild, rchild, parent, textBuf
    {
      Shape() && WellFormed(View(), TextView(), trees)
    }

    constructor ()
      ensures Shape() && fresh(lchild) && fresh(rchild) && fresh(parent) && fresh(textBuf)
    {
      lchild := new int[N + 1];
      rchild := new int[N + 257];
      parent := new int[N + 1];
      textBuf := new Byte[N + F - 1];
    }

    method InitState()
      requires Shape()
      modifies this, lchild, rchild, parent, textBuf
      ensures Valid() && Live() == {}
      ensures forall i :: 0 <= i < N + F - 1 ==> textBuf[i] == if i < N - F then 32 else 0
      ensures matchPosition == 0 && matchLength == 0
    {
      matchPosition, matchLength := 0, 0;
      forall i | 0 <= i < lchild.Length { lchild[i] := 0; }
      forall i | 0 <= i < rchild.Length { rchild[i] := 0; }
      forall i | 0 <= i < parent.Length { parent[i] := 0; }
      forall i | 0 <= i < textBuf.Length { textBuf[i] := 0; }
      for i := 0 to N - F
        modifies textBuf
        invariant forall j :: 0 <= j < N + F - 1 ==> textBuf[j] == if j < i then 32 else 0
      {
        textBuf[i] := 32;
      }
      for i := N + 1 to N + 257
        modifies rchild
        invariant forall j :: N < j < i ==> rchild[j] == NIL
      {
        rchild[i] := NIL;
      }
      for i := 0 to N
        modifies parent
        invariant forall j :: 0 <= j < i ==> parent[j] == NIL
      {
        parent[i] := NIL;
      }
      trees := seq(256, _ => Leaf);
      EmptyForest(View(), TextView(), trees);
    }

    /** Lines 231-234: compare two windows whose first bytes agree. */
    method CompareWindows(r: int, p: int) returns (i: int, cmp: int)
      requires Shape() && IsNode(r) && IsNode(p) && textBuf[r] == textBuf[p]
      ensures i == Shared(TextView(), r, p) && i >= 1
      ensures cmp == 0 <==> i == F
      ensures cmp > 0 ==> Less(Window(TextView(), p), Window(TextView(), r))
      ensures cmp < 0 ==> Less(Window(TextView(), r), Window(TextView(), p))
    {
      ghost var u, v := Window(TextView(), r), Window(TextView(), p);
      i, cmp := 1, 0;
      while i < F
        invariant 1 <= i <= F && cmp == 0
        invariant forall j :: 0 <= j < i ==> u[j] == v[j]
      {
        cmp := textBuf[r + i] as int - textBuf[p + i] as int;
        assert u[i] == textBuf[r + i] && v[i] == textBuf[p + i];
        if cmp != 0 {
          break;
        }
        i := i + 1;
      }
      LcpIs(u, v, i);
      LcpIs(v, u, i);
    }

    /** Lines 231-237: compare with node q and keep the better match. */
    method Judge(r: int, q: int) returns (cmp: int)
      requires Shape() && IsNode(r) && IsNode(q) && textBuf[r] == textBuf[q]
      modifies `matchPosition, `matchLength
      ensures var m := Shared(TextView(), r, q);
              && m >= 1
              && matchLength == (if m > old(matchLength) then m else old(matchLength))
              && matchPosition == (if m > old(matchLength) then q else old(matchPosition))
              && (cmp == 0 <==> m == F)
      ensures cmp > 0 ==> Less(Window(TextView(), q), Window(TextView(), r))
      ensures cmp < 0 ==> Less(Window(TextView(), r), Window(TextView(), q))
    {
      var i;
      i, cmp := CompareWindows(r, q);
      if i > matchLength {
        matchPosition := q;
        matchLength := i;
      }
    }

    /** The child link that the last comparison points to. */
    method ChildLink(p: int, cmp: int) returns (q: int)
      requires Shape() && 0 <= p < N + 257 && (cmp < 0 ==> p <= N)
      ensures q == Link(View(), p, cmp)
    {
      if cmp >= 0 {
        q := rchild[p];
      } else {
        q := lchild[p];
      }
    }

    /** Lines 213-240: one root-to-leaf path, stopping early at a full match. */
    method Walk(r: int, ghost k: Links, ghost text: Text, ghost forest: seq<Tree>)
      returns (p: int, cmp: int, ghost ctx: Ctx, ghost t: Tree)
      requires Shape() && IsNode(r) && k == View() && text == TextView() && WellFormed(k, text, forest)
      modifies `matchPosition, `matchLength
      ensures Arrived(k, text, forest, ctx, t, r, p, cmp)
      ensures IsLongestMatch(k, text, r, matchPosition, matchLength)
      ensures t.Node? <==> matchLength == F
    {
      p, cmp := N + 1 + textBuf[r], 1;
      matchLength := 0;
      ctx, t := Top, forest[text[r]];
      WalkBegins(k, text, forest, r, matchPosition);
      while true
        invariant View() == k && TextView() == text
        invariant Walking(k, text, forest, ctx, t, r, p, cmp, matchPosition, matchLength)
        decreases t
      {
        WalkLooks(k, text, forest, ctx, t, r, p, cmp, matchPosition, matchLength);
        var q := ChildLink(p, cmp);
        if q == NIL {
          WalkFindsLeaf(k, text, forest, ctx, t, r, p, cmp, matchPosition, matchLength);
          return;
        }
        ghost var pos, len := matchPosition, matchLength;
        var cmp' := Judge(r, q);
        if matchLength >= F {
          WalkFindsTwin(k, text, forest, ctx, t, r, p, cmp, pos, len);
          p, cmp := q, cmp';
          return;
        }
        WalkTurns(k, text, forest, ctx, t, r, p, cmp, pos, len, Shared(text, r, q), cmp');
        p, cmp := q, cmp';
        ctx, t := NextCtx(ctx, t, cmp >= 0), NextTree(t, cmp >= 0);
      }
    }

    /** Lines 217-219 and 225-228: r becomes a leaf below p. */
    method StoreLeaf(p: int, cmp: int, r: int)
      requires Shape() && IsNode(r) && 0 <= p < N + 257 && (cmp < 0 ==> p < N)
      modifies lchild, rchild, parent
      ensures View() == old(Attach(View(), p, cmp >= 0, r))
    {
      if cmp >= 0 {
        rchild[p] := r;
      } else {
        lchild[p] := r;
      }
      parent[r] := p;
    }

    /** Lines 241-250: r takes the place of p. */
    method Replace(p: int, r: int)
      requires Shape() && CanReplace(View(), p, r) && lchild[p] != r && rchild[p] != r
      modifies lchild, rchild, parent
      ensures View() == old(TakeOver(Adopt(View(), r, p), p, r))
    {
      parent[r] := parent[p];
      lchild[r] := lchild[p];
      rchild[r] := rchild[p];
      parent[lchild[p]] := r;
      parent[rchild[p]] := r;
      if rchild[parent[p]] == p {
        rchild[parent[p]] := r;
      } else {
        lchild[parent[p]] := r;
      }
      parent[p] := NIL;
    }

    /** Line 211: the new node starts without children. */
    method ClearChildren(r: int)
      requires Valid() && IsNode(r) && parent[r] == NIL
      modifies lchild, rchild
      ensures Valid()
      ensures View() == old(View().(l := View().l[r := NIL], r := View().r[r := NIL]))
    {
      ClearDead(View(), TextView(), trees, r);
      rchild[r], lchild[r] := NIL, NIL;
    }

    method InsertNode(r: int)
      requires Valid() && IsNode(r) && r !in Live()
      modifies lchild, rchild, parent, `matchPosition, `matchLength, `trees
      ensures Valid()
      ensures Live() == old(Live()) - Twins(old(View()), TextView(), r) + {r}
      ensures IsLongestMatch(old(View()), TextView(), r, matchPosition, matchLength)
    {
      var p, cmp;
      ghost var ctx, t;
      p, cmp, ctx, t := Descend(r);
      Place(r, p, cmp, ctx, t);
    }

    /** Lines 203-240: the links of the dead node are cleared, then the tree is searched. */
    method Descend(r: int) returns (p: int, cmp: int, ghost ctx: Ctx, ghost t: Tree)
      requires Valid() && IsNode(r) && parent[r] == NIL
      modifies lchild, rchild, `matchPosition, `matchLength
      ensures Valid() && lchild[r] == NIL && rchild[r] == NIL
      ensures Live() == old(Live()) && Twins(View(), TextView(), r) == Twins(old(View()), TextView(), r)
      ensures Arrived(View(), TextView(), trees, ctx, t, r, p, cmp)
      ensures IsLongestMatch(View(), TextView(), r, matchPosition, matchLength)
      ensures IsLongestMatch(old(View()), TextView(), r, matchPosition, matchLength)
      ensures (t.Node? <==> matchLength == F) && matchLength <= F
    {
      ghost var k0, text := View(), TextView();
      ClearChildren(r);
      ghost var k := View();
      SameLive(k0, k, text, r);
      p, cmp, ctx, t := Search(r);
      SameMatch(k0, k, text, r, matchPosition, matchLength);
    }

    /** The walk leaves the trees alone. */
    method Search(r: int) returns (p: int, cmp: int, ghost ctx: Ctx, ghost t: Tree)
      requires Valid() && IsNode(r)
      modifies `matchPosition, `matchLength
      ensures Valid() && View() == old(View()) && TextView() == old(TextView())
      ensures Arrived(View(), TextView(), trees, ctx, t, r, p, cmp)
      ensures IsLongestMatch(View(), TextView(), r, matchPosition, matchLength)
      ensures (t.Node? <==> matchLength == F) && matchLength <= F
    {
      ghost var k, text, forest := View(), TextView(), trees;
      p, cmp, ctx, t := Walk(r, k, text, forest);
      assert View() == k && TextView() == text && trees == forest;
      assert matchLength == 0 || Shared(TextView(), r, matchPosition) == matchLength;
    }

    /** Where the walk has ended, r is put into the tree. */
    method Place(r: int, p: int, cmp: int, ghost ctx: Ctx, ghost t: Tree)
      requires Valid() && IsNode(r) && Arrived(View(), TextView(), trees, ctx, t, r, p, cmp)
      requires parent[r] == NIL && lchild[r] == NIL && rchild[r] == NIL
      requires IsLongestMatch(View(), TextView(), r, matchPosition, matchLength) && (t.Node? <==> matchLength == F)
      requires matchLength <= F
      modifies lchild, rchild, parent, `trees
      ensures Inserted(old(View()), View(), TextView(), old(trees), trees, r) && Shape()
    {
      if matchLength < F {
        NewLeaf(r, p, cmp, ctx);
      } else {
        TakePlaceOf(r, p, cmp, ctx, t);
      }
    }

    /** The walk has ended at an empty link: r becomes a leaf there. */
    method NewLeaf(r: int, p: int, cmp: int, ghost ctx: Ctx)
      requires Valid() && IsNode(r) && Arrived(View(), TextView(), trees, ctx, Leaf, r, p, cmp)
      requires parent[r] == NIL && lchild[r] == NIL && rchild[r] == NIL
      requires IsLongestMatch(View(), TextView(), r, matchPosition, matchLength) && matchLength < F
      modifies lchild, rchild, parent, `trees
      ensures Inserted(old(View()), View(), TextView(), old(trees), trees, r) && Shape()
    {
      ghost var k, text, forest := View(), TextView(), trees;
      InsertedLeaf(k, text, forest, ctx, r, p, cmp, matchPosition, matchLength);
      StoreLeaf(p, cmp, r);
      trees := forest[text[r] := Plug(ctx, Node(Leaf, r, Leaf))];
    }

    /** The walk has ended at a node p with the same window: r replaces it. */
    method TakePlaceOf(r: int, p: int, cmp: int, ghost ctx: Ctx, ghost t: Tree)
      requires Valid() && IsNode(r) && Arrived(View(), TextView(), trees, ctx, t, r, p, cmp) && t.Node?
      requires parent[r] == NIL
      modifies lchild, rchild, parent, `trees
      ensures Inserted(old(View()), View(), TextView(), old(trees), trees, r) && Shape()
    {
      ghost var k, text, forest := View(), TextView(), trees;
      InsertedInPlace(k, text, forest, ctx, t, r, p, cmp);
      Replace(p, r);
      trees := forest[text[r] := Plug(ctx, Node(t.left, r, t.right))];
    }

    /** Lines 266-269: the last node on the right spine below q. */
    method LastRight(q0: int, ghost k: Links, ghost a: Tree, ghost p: int)
      returns (q: int, ghost sp: Ctx, ghost qa: Tree)
      requires Shape() && k == View() && a.Node? && Represents(k, a, q0, p) && IsNode(q0)
      requires rchild[q0] != NIL
      ensures sp.InRight? && RightSpine(sp) && a == Plug(sp, Node(qa, q, Leaf)) && IsNode(q)
    {
      q, sp := q0, Top;
      ghost var t, par := a, p;
      SpineStep(k, sp, t, q, par);
      sp, t, par := InRight(sp, t.left, q), t.right, q;
      q := rchild[q];
      SpineStep(k, sp, t, q, par);
      while rchild[q] != NIL
        invariant sp.InRight? && RightSpine(sp) && a == Plug(sp, t)
        invariant t.Node? && Represents(k, t, q, par) && IsNode(q) && t.idx == q
        decreases t
      {
        SpineStep(k, sp, t, q, par);
        sp, t, par := InRight(sp, t.left, q), t.right, q;
        q := rchild[q];
        SpineStep(k, sp, t, q, par);
      }
      SpineStep(k, sp, t, q, par);
      qa := t.left;
    }

    /** Lines 270-276, the far predecessor: q leaves its place and adopts p's children. */
    method MoveUp(p: int, q: int)
      requires Shape() && CanDetach(View(), q) && CanReplace(Detach(View(), q), p, q)
      modifies lchild, rchild, parent
      ensures View() == old(Adopt(Detach(View(), q), q, p))
    {
      ghost var k1 := Detach(View(), q);
      rchild[parent[q]] := lchild[q];
      parent[lchild[q]] := parent[q];
      assert View() == k1;
      lchild[q] := lchild[p];
      parent[lchild[p]] := q;
      rchild[q] := rchild[p];
      parent[rchild[p]] := q;
    }

    /** Lines 275-276, the near predecessor. */
    method TakeRight(p: int, q: int)
      requires Shape() && CanRaise(View(), p, q)
      modifies rchild, parent
      ensures View() == old(AdoptRight(View(), q, p))
    {
      rchild[q] := rchild[p];
      parent[rchild[p]] := q;
    }

    /** Lines 278-283: q takes p's place and p leaves the tree. */
    method TakePlace(p: int, q: int)
      requires Shape() && CanTakeOver(View(), p, q)
      modifies lchild, rchild, parent
      ensures View() == old(TakeOver(View(), p, q))
    {
      parent[q] := parent[p];
      if rchild[parent[p]] == p {
        rchild[parent[p]] := q;
      } else {
        lchild[parent[p]] := q;
      }
      parent[p] := NIL;
    }

    /** Lines 265-276: both children exist; the predecessor of p is made ready to take its place. */
    method Predecessor(p: int, ghost k: Links, ghost text: Text, ghost forest: seq<Tree>, ghost ctx: Ctx,
        ghost a: Tree, ghost b: Tree)
      returns (q: int, ghost forest': seq<Tree>)
      requires Shape() && IsNode(p) && k == View() && a.Node?
      requires Exposed(k, text, forest, ctx, a, p, b) && Represents(k, a, k.l[p], p)
      modifies lchild, rchild, parent
      ensures CanTakeOver(View(), p, q)
      ensures Deleted(k, TakeOver(View(), p, q), text, forest', p)
    {
      q := lchild[p];
      SpineStep(k, Top, a, q, p);
      if rchild[q] != NIL {
        ghost var sp, qa;
        q, sp, qa := LastRight(q, k, a, p);
        DeletedByPredecessor(k, text, forest, ctx, sp, qa, q, p, b);
        MoveUp(p, q);
        forest' := forest[text[p] := Plug(ctx, Node(Plug(sp, qa), q, b))];
      } else {
        DeletedRaising(k, text, forest, ctx, a.left, q, p, b);
        TakeRight(p, q);
        forest' := forest[text[p] := Plug(ctx, Node(a.left, q, b))];
      }
    }

    /** Lines 260-277: who will stand in p's place. */
    method Heir(p: int, ghost k: Links, ghost text: Text, ghost forest: seq<Tree>)
      returns (q: int, ghost forest': seq<Tree>)
      requires Shape() && IsNode(p) && k == View() && WellFormed(k, text, forest) && parent[p] != NIL
      modifies lchild, rchild, parent
      ensures CanTakeOver(View(), p, q)
      ensures Deleted(k, TakeOver(View(), p, q), text, forest', p)
    {
      ghost var ctx, a, b := Expose(k, text, forest, p);
      if rchild[p] == NIL {
        q := lchild[p];
        DeletedBypass(k, text, forest, ctx, a, p, b, q);
        forest' := forest[text[p] := Plug(ctx, a)];
      } else if lchild[p] == NIL {
        q := rchild[p];
        DeletedBypass(k, text, forest, ctx, a, p, b, q);
        forest' := forest[text[p] := Plug(ctx, b)];
      } else {
        q, forest' := Predecessor(p, k, text, forest, ctx, a, b);
      }
    }

    method DeleteNode(p: int)
      requires Valid() && IsNode(p)
      modifies lchild, rchild, parent, `trees
      ensures Valid()
      ensures Live() == old(Live()) - {p}
      ensures p !in old(Live()) ==> View() == old(View())
    {
      if parent[p] == NIL {
        return;
      }
      ghost var forest;
      var q;
      q, forest := Heir(p, View(), TextView(), trees);
      TakePlace(p, q);
      trees := forest;
    }

    method Perform(op: Op)
      requires Valid() && IsNode(op.node) && (op.Insert? ==> op.node !in Live())
      modifies lchild, rchild, parent, `matchPosition, `matchLength, `trees
      ensures Valid() && Live() == Step(TextView(), old(Live()), op)
    {
      match op
      case Insert(r) => InsertNode(r);
      case Delete(p) => DeleteNode(p);
    }

    /** Any legal sequence of operations keeps the trees and yields exactly the predicted nodes. */
    method Run(ops: seq<Op>)
      requires Valid()
      requires forall op :: op in ops ==> IsNode(op.node)
      requires Enabled(TextView(), Live(), ops)
      modifies lchild, rchild, parent, `matchPosition, `matchLength, `trees
      ensures Valid()
      ensures Live() == Outcome(TextView(), old(Live()), ops)
      decreases |ops|
    {
      if ops != [] {
        Perform(ops[0]);
        Run(ops[1..]);
      }
    }
  }
}
