/** The order in which policies were registered does not matter to a decided check. */
module MacOrder {
  import opened Base
  import opened PolicyTable
  import opened PolicyList
  import opened MacError
  import opened MacCheck

  /** The configurations of the policies below n, in handle order. */
  function Confs(table: Table, n: nat): seq<Conf>
    requires n <= |table|
  {
    if n == 0 then [] else Confs(table, n - 1) + (if table[n - 1].Some? then [table[n - 1].value.conf] else [])
  }

  /** The configurations of all loaded policies. */
  ghost function LoadedConfs(g: Registry): set<Conf> {
    set h | h in Loaded(g) :: Loaded(g)[h].conf
  }

  /** The verdicts of policies with the given configurations, in order; None stands for no opinion. */
  function Answers(cs: seq<Conf>, f: Conf -> Option<int>): seq<int> {
    if cs == [] then [] else (if f(cs[0]).Some? then [f(cs[0]).value] else []) + Answers(cs[1..], f)
  }

  /** An operation that looks at a policy's configuration only. */
  function ByConf(f: Conf -> Option<int>): Entry -> Option<int> {
    (e: Entry) => f(e.conf)
  }

  lemma {:induction false} AnswersConcat(a: seq<Conf>, b: seq<Conf>, f: Conf -> Option<int>)
    ensures Answers(a + b, f) == Answers(a, f) + Answers(b, f)
    decreases |a|
  {
    if a == [] {
      assert a + b == b;
    } else {
      var first := if f(a[0]).Some? then [f(a[0]).value] else [];
      assert (a + b)[0] == a[0] && (a + b)[1..] == a[1..] + b;
      AnswersConcat(a[1..], b, f);
      assert first + (Answers(a[1..], f) + Answers(b, f)) == (first + Answers(a[1..], f)) + Answers(b, f);
    }
  }

  lemma {:induction false} VerdictsByConf(table: Table, n: nat, f: Conf -> Option<int>)
    requires n <= |table|
    ensures Verdicts(table, n, ByConf(f)) == Answers(Confs(table, n), f)
  {
    if n > 0 {
      VerdictsByConf(table, n - 1, f);
      var last := if table[n - 1].Some? then [table[n - 1].value.conf] else [];
      AnswersConcat(Confs(table, n - 1), last, f);
      if table[n - 1].Some? {
        assert last[1..] == [];
      }
    }
  }

  /** Reordering the policies reorders their verdicts. */
  lemma {:induction false} AnswersReordered(a: seq<Conf>, b: seq<Conf>, f: Conf -> Option<int>)
    requires multiset(a) == multiset(b)
    ensures multiset(Answers(a, f)) == multiset(Answers(b, f))
    decreases |a|
  {
    if a == [] {
      assert |multiset(b)| == |b|;
    } else {
      var i := FirstElsewhere(a, b);
      AnswersReordered(a[1..], b[..i] + b[i + 1..], f);
      assert a == [] + ([a[0]] + a[1..]) && a[..0] + a[1..] == a[1..];
      AnswersWithout(a, 0, f);
      AnswersWithout(b, i, f);
    }
  }

  lemma {:induction false} FirstElsewhere(a: seq<Conf>, b: seq<Conf>) returns (i: nat)
    requires a != [] && multiset(a) == multiset(b)
    ensures i < |b| && b[i] == a[0] && multiset(a[1..]) == multiset(b[..i] + b[i + 1..])
  {
    assert a[0] in multiset(a) && a[0] in multiset(b);
    i :| 0 <= i < |b| && b[i] == a[0];
    assert multiset(a[1..]) == multiset(a) - multiset{a[0]} by {
      assert a == [a[0]] + a[1..];
    }
    Without(b, i);
  }

  lemma {:induction false} Without(b: seq<Conf>, i: nat)
    requires i < |b|
    ensures multiset(b[..i] + b[i + 1..]) == multiset(b) - multiset{b[i]}
  {
    assert b == b[..i] + [b[i]] + b[i + 1..];
  }

  lemma Shuffled(x: seq<int>, m: seq<int>, z: seq<int>)
    ensures multiset(x + (m + z)) == multiset(m) + multiset(x + z)
  {
  }

  lemma {:induction false} AnswersWithout(b: seq<Conf>, i: nat, f: Conf -> Option<int>)
    requires i < |b|
    ensures multiset(Answers(b, f)) == multiset(Answers([b[i]], f)) + multiset(Answers(b[..i] + b[i + 1..], f))
  {
    var x, m, z := b[..i], [b[i]], b[i + 1..];
    assert b == x + (m + z);
    AnswersConcat(x, m + z, f);
    AnswersConcat(m, z, f);
    AnswersConcat(x, z, f);
    Shuffled(Answers(x, f), Answers(m, f), Answers(z, f));
  }

  lemma {:induction false} ConfsAre(table: Table, n: nat)
    requires n <= |table|
    ensures forall c :: c in Confs(table, n) <==> exists h :: 0 <= h < n && Holds(table, h, c)
  {
    if n > 0 {
      ConfsAre(table, n - 1);
      forall c ensures c in Confs(table, n) <==> exists h :: 0 <= h < n && Holds(table, h, c) {
        if c in Confs(table, n) && c !in Confs(table, n - 1) {
          assert Holds(table, n - 1, c);
        }
      }
    }
  }

  predicate Holds(table: Table, h: nat, c: Conf)
    requires h < |table|
  {
    table[h].Some? && table[h].value.conf == c
  }

  predicate Distinct(cs: seq<Conf>) {
    forall i, j :: 0 <= i < j < |cs| ==> cs[i] != cs[j]
  }

  /** Names are unique, so no configuration stands twice in the table. */
  lemma {:induction false} ConfsDistinct(table: Table, n: nat)
    requires n <= |table| && NamesUnique(table)
    ensures Distinct(Confs(table, n))
  {
    if n > 0 {
      ConfsDistinct(table, n - 1);
      if table[n - 1].Some? {
        var before, c := Confs(table, n - 1), table[n - 1].value.conf;
        ConfsAre(table, n - 1);
        assert c !in before;
        assert Confs(table, n) == before + [c];
      }
    }
  }

  lemma {:induction false} DistinctCount(cs: seq<Conf>, c: Conf)
    requires Distinct(cs)
    ensures multiset(cs)[c] == if c in cs then 1 else 0
    decreases |cs|
  {
    if cs != [] {
      var rest := cs[1..];
      assert cs == [cs[0]] + rest && cs[0] !in rest;
      DistinctCount(rest, c);
    }
  }

  lemma ConfsOfLoaded(g: Registry)
    ensures forall c :: c in Confs(g.table, |g.table|) <==> c in LoadedConfs(g)
  {
    ConfsAre(g.table, |g.table|);
    forall c
      ensures c in Confs(g.table, |g.table|) <==> c in LoadedConfs(g)
    {
      if h: nat :| 0 <= h < |g.table| && Holds(g.table, h, c) {
        assert h in Loaded(g);
      }
      if h :| h in Loaded(g) && Loaded(g)[h].conf == c {
        assert Holds(g.table, h, c);
      }
    }
  }

  /** Lists with the same policies give the same verdicts, in some order. */
  lemma SamePoliciesSameVerdicts(g1: Registry, g2: Registry, f: Conf -> Option<int>)
    requires Sound(g1) && Sound(g2) && LoadedConfs(g1) == LoadedConfs(g2)
    ensures multiset(Verdicts(g1.table, |g1.table|, ByConf(f))) == multiset(Verdicts(g2.table, |g2.table|, ByConf(f)))
  {
    var a, b := Confs(g1.table, |g1.table|), Confs(g2.table, |g2.table|);
    ConfsDistinct(g1.table, |g1.table|);
    ConfsDistinct(g2.table, |g2.table|);
    ConfsOfLoaded(g1);
    ConfsOfLoaded(g2);
    forall c ensures multiset(a)[c] == multiset(b)[c] {
      DistinctCount(a, c);
      DistinctCount(b, c);
    }
    AnswersReordered(a, b, f);
    VerdictsByConf(g1.table, |g1.table|, f);
    VerdictsByConf(g2.table, |g2.table|, f);
  }

  /** The same policies, registered in any order and at any handles, give the same result on every decided check,
      provided that neither list hides a policy. */
  lemma RegistrationOrderIsIrrelevant(g1: Registry, g2: Registry, f: Conf -> Option<int>)
    requires Sound(g1) && Bounded(g1) && MissesNobody(g1)
    requires Sound(g2) && Bounded(g2) && MissesNobody(g2)
    requires LoadedConfs(g1) == LoadedConfs(g2)
    requires Decided(Verdicts(g1.table, PassEnd(g1), ByConf(f)))
    ensures Compose(Verdicts(g1.table, PassEnd(g1), ByConf(f))) == Compose(Verdicts(g2.table, PassEnd(g2), ByConf(f)))
  {
    CoverAllIfMet(g1, ByConf(f));
    CoverAllIfMet(g2, ByConf(f));
    SamePoliciesSameVerdicts(g1, g2, f);
    OrderDoesNotMatter(Verdicts(g1.table, |g1.table|, ByConf(f)), Verdicts(g2.table, |g2.table|, ByConf(f)));
  }
}
