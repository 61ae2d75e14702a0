/** How the verdicts of several policies become one error. */
module MacError {
  const EPERM := 1
  const ENOENT := 2
  const ESRCH := 3
  const EDEADLK := 11
  const ENOMEM := 12
  const EACCES := 13
  const EBUSY := 16
  const EEXIST := 17
  const EINVAL := 22
  const ENOPOLICY := 103

  function ErrorSelect(error1: int, error2: int): int {
    if error1 == EDEADLK || error2 == EDEADLK then EDEADLK
    else if error1 == EINVAL || error2 == EINVAL then EINVAL
    else if error1 == ESRCH || error2 == ESRCH then ESRCH
    else if error1 == ENOENT || error2 == ENOENT then ENOENT
    else if error1 == EACCES || error2 == EACCES then EACCES
    else if error1 == EPERM || error2 == EPERM then EPERM
    else if error1 != 0 then error1
    else error2
  }

  /** Precedence of an error; all errors without a precedence of their own share rank 1. */
  function Rank(e: int): nat {
    if e == EDEADLK then 7
    else if e == EINVAL then 6
    else if e == ESRCH then 5
    else if e == ENOENT then 4
    else if e == EACCES then 3
    else if e == EPERM then 2
    else if e != 0 then 1
    else 0
  }

  lemma SelectByRank(a: int, b: int)
    ensures ErrorSelect(a, b) == if Rank(a) >= Rank(b) then a else b
  {
  }

  /** Of two different errors among EDEADLK, EINVAL, ESRCH, ENOENT, EACCES, EPERM, any other one and none at all, the
      earlier in this list is selected. */
  lemma Precedence(i: nat, j: nat, other: int)
    requires i < j < 8 && other !in {0, 1, 2, 3, 11, 13, 22}
    ensures var errors := [11, 22, 3, 2, 13, 1, other, 0];
      ErrorSelect(errors[i], errors[j]) == errors[i] == ErrorSelect(errors[j], errors[i])
  {
  }

  /** The error a check ends with when its policies answer `verdicts`, in the order they are asked. */
  function Compose(verdicts: seq<int>): int {
    if verdicts == [] then 0
    else ErrorSelect(verdicts[|verdicts| - 1], Compose(verdicts[..|verdicts| - 1]))
  }

  /** The composed error is a verdict of highest precedence; it is 0 exactly when every policy consents. */
  lemma {:induction false} ComposeIsHighest(verdicts: seq<int>)
    ensures Compose(verdicts) != 0 ==> Compose(verdicts) in verdicts
    ensures forall v :: v in verdicts ==> Rank(v) <= Rank(Compose(verdicts))
    ensures Compose(verdicts) == 0 <==> forall v :: v in verdicts ==> v == 0
  {
    if verdicts != [] {
      var rest, last := verdicts[..|verdicts| - 1], verdicts[|verdicts| - 1];
      ComposeIsHighest(rest);
      SelectByRank(last, Compose(rest));
      assert forall v :: v in verdicts <==> v in rest || v == last;
    }
  }

  /** The verdicts leave no choice: one of them has a precedence of its own, or all errors are the same. */
  ghost predicate Decided(verdicts: seq<int>) {
    || (exists v :: v in verdicts && Rank(v) >= 2)
    || (forall v, w :: v in verdicts && w in verdicts && v != 0 && w != 0 ==> v == w)
  }

  lemma SameMembers(s: seq<int>, t: seq<int>)
    requires multiset(s) == multiset(t)
    ensures forall v :: v in s <==> v in t
  {
    forall v ensures v in s <==> v in t {
      assert v in multiset(s) <==> v in s;
      assert v in multiset(t) <==> v in t;
    }
  }

  lemma RankIsValue(a: int, b: int)
    requires Rank(a) == Rank(b) && Rank(a) != 1
    ensures a == b
  {
  }

  lemma OrderDoesNotMatter(s: seq<int>, t: seq<int>)
    requires multiset(s) == multiset(t) && Decided(s)
    ensures Compose(s) == Compose(t)
  {
    SameMembers(s, t);
    ComposeIsHighest(s);
    ComposeIsHighest(t);
    var a, b := Compose(s), Compose(t);
    assert Rank(a) <= Rank(b) by { if a == 0 {} else { assert a in t; } }
    assert Rank(b) <= Rank(a) by { if b == 0 {} else { assert b in s; } }
    if Rank(a) != 1 {
      RankIsValue(a, b);
    }
  }

  /** A last verdict that none before outranks decides. */
  lemma LastDecides(rest: seq<int>, x: int)
    requires forall v :: v in rest ==> Rank(v) <= Rank(x)
    ensures Compose(rest + [x]) == x
  {
    assert (rest + [x])[..|rest|] == rest;
    ComposeIsHighest(rest);
    SelectByRank(x, Compose(rest));
  }

  /** s with the entry at i moved to the end. */
  function ToEnd(s: seq<int>, i: nat): seq<int>
    requires i < |s|
  {
    s[..i] + s[i + 1..] + [s[i]]
  }

  lemma ToEndSame(s: seq<int>, i: nat)
    requires i < |s|
    ensures multiset(ToEnd(s, i)) == multiset(s)
  {
    assert s == s[..i] + [s[i]] + s[i + 1..];
  }

  /** Undecided verdicts: moving another error to the end changes the outcome. */
  lemma OrderMatters(s: seq<int>) returns (t: seq<int>)
    requires !Decided(s)
    ensures multiset(s) == multiset(t) && Compose(s) != Compose(t)
  {
    var v, w :| v in s && w in s && v != 0 && w != 0 && v != w;
    var x := if Compose(s) == v then w else v;
    var i :| 0 <= i < |s| && s[i] == x;
    t := ToEnd(s, i);
    ToEndSame(s, i);
    LastDecides(s[..i] + s[i + 1..], x);
  }

  /** The outcome is independent of the order of the policies exactly when the verdicts decide it. */
  lemma OrderIndependentIff(s: seq<int>)
    ensures (forall t :: multiset(s) == multiset(t) ==> Compose(t) == Compose(s)) <==> Decided(s)
  {
    if Decided(s) {
      forall t | multiset(s) == multiset(t) ensures Compose(t) == Compose(s) {
        OrderDoesNotMatter(s, t);
      }
    } else {
      var t := OrderMatters(s);
    }
  }
}
