/**
 The 256 trees together: every live node stands in the tree of its first byte, and each tree is
 strictly ordered by the 18-byte windows of its nodes.
 */
module Forest {
  import opened Base
  import opened Lzss
  import opened SearchTree
  import opened TreeEdits

  predicate AreNodes(s: seq<int>) {
    forall u :: 0 <= u < |s| ==> IsNode(s[u])
  }

  /** Symmetric order of a tree is strictly increasing order of its windows. */
  predicate Sorted(text: Text, s: seq<int>)
    requires AreNodes(s)
  {
    forall u, v :: 0 <= u < v < |s| ==> Less(Window(text, s[u]), Window(text, s[v]))
  }

  ghost predicate TreeOk(k: Links, text: Text, t: Tree, c: Byte)
    requires k.Sized()
  {
    && Represents(k, t, k.r[Root(c)], Root(c))
    && AreNodes(Inorder(t))
    && Sorted(text, Inorder(t))
    && forall i :: i in Inorder(t) ==> IsNode(i) && text[i] == c
  }

  ghost predicate WellFormed(k: Links, text: Text, trees: seq<Tree>) {
    && k.Sized()
    && |trees| == 256
    && (forall c: Byte :: TreeOk(k, text, trees[c], c))
    && (forall i :: IsNode(i) ==> (k.p[i] != NIL <==> i in Inorder(trees[text[i]])))
  }

  lemma EmptyForest(k: Links, text: Text, trees: seq<Tree>)
    requires k.Sized() && |trees| == 256 && forall c: Byte :: trees[c] == Leaf
    requires forall j :: N < j < N + 257 ==> k.r[j] == NIL
    requires forall j :: 0 <= j < N ==> k.p[j] == NIL
    ensures WellFormed(k, text, trees)
  {
  }

  lemma SortedNoDup(text: Text, s: seq<int>)
    requires AreNodes(s) && Sorted(text, s)
    ensures NoDup(s)
  {
    forall u, v | 0 <= u < v < |s| ensures s[u] != s[v] {
      assert Less(Window(text, s[u]), Window(text, s[v]));
    }
  }

  /** From k to k' only nodes and the root of the tree for c were touched. */
  ghost predicate TouchesOnly(k: Links, k': Links, text: Text, c: Byte)
    requires k.Sized() && k'.Sized()
  {
    && (forall i :: IsNode(i) && text[i] != c ==> SameNode(k, k', i))
    && (forall d: Byte :: d != c ==> k.r[Root(d)] == k'.r[Root(d)])
  }

  lemma {:induction false} RepresentedAreLive(k: Links, t: Tree, at: int, par: int)
    requires k.Sized() && Represents(k, t, at, par) && par != NIL
    ensures forall i :: i in Inorder(t) ==> IsNode(i) && k.p[i] != NIL
  {
    match t
    case Leaf =>
    case Node(a, i, b) =>
      RepresentedAreLive(k, a, k.l[i], i);
      RepresentedAreLive(k, b, k.r[i], i);
  }

  /** One tree is exchanged; the other 255 do not notice. */
  lemma Install(k: Links, k': Links, text: Text, trees: seq<Tree>, c: Byte, t: Tree)
    requires WellFormed(k, text, trees) && k'.Sized()
    requires TreeOk(k', text, t, c)
    requires TouchesOnly(k, k', text, c)
    requires LiveAre(k', text, c, Inorder(t))
    ensures WellFormed(k', text, trees[c := t])
  {
    var trees' := trees[c := t];
    forall d: Byte ensures TreeOk(k', text, trees'[d], d) {
      if d != c {
        assert TreeOk(k, text, trees[d], d);
        RepresentsFrame(k, k', trees[d], k.r[Root(d)], Root(d));
      }
    }
    forall i | IsNode(i) ensures k'.p[i] != NIL <==> i in Inorder(trees'[text[i]]) {
      if text[i] != c {
        assert SameNode(k, k', i);
      }
    }
  }

  /** Which nodes are live afterwards: one may leave, one may arrive. */
  ghost predicate LiveChange(k: Links, k': Links, gone: int, come: int)
    requires k.Sized() && k'.Sized()
  {
    forall i :: IsNode(i) ==> (k'.p[i] != NIL <==> (k.p[i] != NIL && i != gone) || i == come)
  }

  /** The nodes with first byte c that are live are exactly those of s. */
  ghost predicate LiveAre(k: Links, text: Text, c: Byte, s: seq<int>)
    requires k.Sized()
  {
    forall i :: IsNode(i) && text[i] == c ==> (k.p[i] != NIL <==> i in s)
  }

  lemma LiveChanges(k: Links, k': Links, text: Text, c: Byte, s: seq<int>, s': seq<int>, gone: int, come: int)
    requires k.Sized() && k'.Sized() && TouchesOnly(k, k', text, c)
    requires LiveAre(k, text, c, s) && LiveAre(k', text, c, s')
    requires forall i :: IsNode(i) ==> (i in s' <==> (i in s && i != gone) || i == come)
    requires InTree(text, c, gone) && InTree(text, c, come)
    ensures LiveChange(k, k', gone, come)
  {
    forall i | IsNode(i) ensures k'.p[i] != NIL <==> (k.p[i] != NIL && i != gone) || i == come {
      if text[i] != c {
        assert SameNode(k, k', i);
      }
    }
  }

  /** Nodes that may be written while the tree for c is edited. */
  predicate InTree(text: Text, c: Byte, i: int) {
    i == NIL || i == Root(c) || (IsNode(i) && text[i] == c)
  }

  lemma TouchTakeOver(k: Links, text: Text, c: Byte, p: int, q: int)
    requires k.Sized() && IsNode(p) && 0 <= q <= N
    requires 0 <= k.p[p] < N + 257 && (k.r[k.p[p]] != p ==> k.p[p] < N)
    requires InTree(text, c, p) && InTree(text, c, q) && InTree(text, c, k.p[p])
    ensures TouchesOnly(k, TakeOver(k, p, q), text, c)
  {
  }

  lemma TouchAdopt(k: Links, text: Text, c: Byte, q: int, p: int)
    requires k.Sized() && IsNode(p) && IsNode(q)
    requires 0 <= k.l[p] <= N && 0 <= k.r[p] <= N
    requires InTree(text, c, q) && InTree(text, c, k.l[p]) && InTree(text, c, k.r[p])
    ensures TouchesOnly(k, Adopt(k, q, p), text, c)
  {
  }

  lemma TouchAttach(k: Links, text: Text, c: Byte, par: int, right: bool, r: int)
    requires k.Sized() && IsNode(r) && text[r] == c
    requires 0 <= par < N + 257 && par != NIL && (!right ==> par < N)
    requires InTree(text, c, par)
    ensures TouchesOnly(k, Attach(k, par, right, r), text, c)
  {
  }

  lemma TouchTrans(k: Links, k1: Links, k2: Links, text: Text, c: Byte)
    requires k.Sized() && k1.Sized() && k2.Sized()
    requires TouchesOnly(k, k1, text, c) && TouchesOnly(k1, k2, text, c)
    ensures TouchesOnly(k, k2, text, c)
  {
    forall i | IsNode(i) && text[i] != c ensures SameNode(k, k2, i) {
      assert SameNode(k, k1, i) && SameNode(k1, k2, i);
    }
  }

  /** Sortedness survives removing an element. */
  lemma SortedRemove(text: Text, x: seq<int>, y: seq<int>, z: seq<int>)
    requires AreNodes(x + y + z) && Sorted(text, x + y + z)
    ensures AreNodes(x + z) && Sorted(text, x + z)
  {
    var s, s' := x + y + z, x + z;
    forall u | 0 <= u < |s'| ensures IsNode(s'[u]) {
      assert s'[u] == if u < |x| then s[u] else s[u + |y|];
    }
    forall u, v | 0 <= u < v < |s'| ensures Less(Window(text, s'[u]), Window(text, s'[v])) {
      assert s'[u] == if u < |x| then s[u] else s[u + |y|];
      assert s'[v] == if v < |x| then s[v] else s[v + |y|];
    }
  }

  /** Sortedness survives inserting an element between smaller and larger ones. */
  lemma SortedInsert(text: Text, x: seq<int>, r: int, z: seq<int>)
    requires IsNode(r) && AreNodes(x + z) && Sorted(text, x + z)
    requires forall i :: i in x && IsNode(i) ==> Less(Window(text, i), Window(text, r))
    requires forall i :: i in z && IsNode(i) ==> Less(Window(text, r), Window(text, i))
    ensures AreNodes(x + [r] + z) && Sorted(text, x + [r] + z)
  {
    var s, s' := x + z, x + [r] + z;
    assert forall u :: 0 <= u < |s'| && u != |x| ==> s'[u] == s[if u < |x| then u else u - 1];
    forall u | 0 <= u < |s'| ensures IsNode(s'[u]) {
      if u != |x| { assert IsNode(s[if u < |x| then u else u - 1]); }
    }
    forall u, v | 0 <= u < v < |s'| ensures Less(Window(text, s'[u]), Window(text, s'[v])) {
      if u == |x| {
        assert s'[v] in z;
      } else if v == |x| {
        assert s'[u] in x;
      } else {
        var u0, v0 := if u < |x| then u else u - 1, if v < |x| then v else v - 1;
        assert Less(Window(text, s[u0]), Window(text, s[v0]));
      }
    }
  }

  /** Exchanging an element for one with the same window keeps the order. */
  lemma SortedExchange(text: Text, x: seq<int>, p: int, r: int, z: seq<int>)
    requires IsNode(r) && AreNodes(x + [p] + z) && Sorted(text, x + [p] + z)
    requires IsNode(p) && Window(text, p) == Window(text, r)
    ensures AreNodes(x + [r] + z) && Sorted(text, x + [r] + z)
  {
    var s, s' := x + [p] + z, x + [r] + z;
    assert forall u :: 0 <= u < |s| && u != |x| ==> s'[u] == s[u];
    forall u | 0 <= u < |s'| ensures IsNode(s'[u]) { assert IsNode(s[u]); }
    forall u, v | 0 <= u < v < |s'| ensures Less(Window(text, s'[u]), Window(text, s'[v])) {
      assert Less(Window(text, s[u]), Window(text, s[v]));
    }
  }
}
