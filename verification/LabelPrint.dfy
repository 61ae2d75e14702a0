/** What printing labels amounts to: the policies that are asked, the text they leave behind, and when it succeeds. */
module LabelPrint {
  import opened Base
  import opened LabelText
  import opened MacError

  /** A label namespace and the handles of the policies that listen to it. */
  datatype Element = Element(name: string, listeners: seq<nat>)

  /** What a policy appends to the buffer, and the error it returns. */
  datatype Printed = Printed(text: string, error: int)

  /** The element lists and the policies behind them; None stands for a policy without the operation. */
  datatype Framework = Framework(
    statics: seq<Element>,
    dynamics: seq<Element>,
    busy: bool,
    externalizer: (nat, string) -> Option<Printed>,
    hasInternalizer: nat -> bool,
    internalizer: (nat, string, string) -> int)

  datatype Request = All | One(name: string, ignoreNotFound: bool)

  /** Lines 1138-1142. */
  function RequestFor(element: string): Request {
    if element != "" && element[0] == '?' then One(element[1..], true)
    else if element == "*" then All
    else One(element, false)
  }

  function WithoutMark(name: string): string {
    if name != "" && name[0] == '?' then name[1..] else name
  }

  /** The name under which an element answers a request, if it does. */
  function NameFor(req: Request, name: string): Option<string> {
    match req
    case All => if name != "" && name[0] == '?' then None else Some(name)
    case One(wanted, _) => if WithoutMark(name) == wanted then Some(wanted) else None
  }

  // ---- who is asked

  /** A policy was asked to print its label for a name. */
  datatype Visit = Visit(name: string, printed: Printed)

  function ListenerVisits(fw: Framework, mleName: string, name: string, hs: seq<nat>): seq<Visit> {
    if hs == [] then []
    else
      var p := fw.externalizer(hs[0], mleName);
      (if p.Some? then [Visit(name, p.value)] else []) + ListenerVisits(fw, mleName, name, hs[1..])
  }

  function ElementVisits(fw: Framework, req: Request, e: Element): seq<Visit> {
    var name := NameFor(req, e.name);
    if name.Some? then ListenerVisits(fw, e.name, name.value, e.listeners) else []
  }

  function ListVisits(fw: Framework, req: Request, list: seq<Element>): seq<Visit> {
    if list == [] then [] else ElementVisits(fw, req, list[0]) + ListVisits(fw, req, list[1..])
  }

  /** Static elements first, then the dynamic ones when there are dynamic policies. */
  function RequestVisits(fw: Framework, req: Request): seq<Visit> {
    ListVisits(fw, req, fw.statics) + (if fw.busy then ListVisits(fw, req, fw.dynamics) else [])
  }

  function AllVisits(fw: Framework, pieces: seq<string>): seq<Visit> {
    if pieces == [] then [] else RequestVisits(fw, RequestFor(pieces[0])) + AllVisits(fw, pieces[1..])
  }

  /** The pairs printed in the end: those of the policies that answered 0. */
  function PairsOf(vs: seq<Visit>): seq<Pair> {
    if vs == [] then []
    else (if vs[0].printed.error == 0 then [Pair(vs[0].name, vs[0].printed.text)] else []) + PairsOf(vs[1..])
  }

  // ---- what happens to the buffer

  /** The text after one visit that did not fail; "no such label" takes back the length of the name and the slash. */
  function WriteOne(before: string, v: Visit): string {
    if v.printed.error == ENOENT then (before + v.name + "/" + v.printed.text)[..|before| + |v.printed.text|]
    else before + v.name + "/" + v.printed.text + ","
  }

  function Write(before: string, vs: seq<Visit>): string
    decreases |vs|
  {
    if vs == [] then before else Write(WriteOne(before, vs[0]), vs[1..])
  }

  /** The error of one visit to a buffer with len characters in it; a buffer that is exactly full has overflowed. */
  function VisitError(len: nat, v: Visit, size: nat): int {
    if len + |v.name| + 1 + |v.printed.text| >= size - 1 then -1
    else if v.printed.error == ENOENT then 0
    else v.printed.error
  }

  /** The first error of a row of visits, 0 if there is none. */
  function VisitsError(before: string, vs: seq<Visit>, size: nat): int
    decreases |vs|
  {
    if vs == [] then 0
    else if VisitError(|before|, vs[0], size) != 0 then VisitError(|before|, vs[0], size)
    else VisitsError(WriteOne(before, vs[0]), vs[1..], size)
  }

  /** A request finds a label, or does not insist on it. */
  predicate Answered(fw: Framework, req: Request) {
    req.All? || req.ignoreNotFound || PairsOf(RequestVisits(fw, req)) != []
  }

  function RequestError(fw: Framework, before: string, req: Request, size: nat): int {
    var e := VisitsError(before, RequestVisits(fw, req), size);
    if e != 0 then e else if Answered(fw, req) then 0 else ENOENT
  }

  /** The error of a list of requests: that of the first one to fail. */
  function PiecesError(fw: Framework, before: string, pieces: seq<string>, size: nat): int
    decreases |pieces|
  {
    if pieces == [] then 0
    else
      var req := RequestFor(pieces[0]);
      var e := RequestError(fw, before, req, size);
      if e != 0 then e else PiecesError(fw, Write(before, RequestVisits(fw, req)), pieces[1..], size)
  }

  // ---- rows of visits one after the other

  lemma {:induction false} WriteConcat(before: string, a: seq<Visit>, b: seq<Visit>)
    ensures Write(before, a + b) == Write(Write(before, a), b)
    decreases |a|
  {
    if a == [] {
      assert a + b == b;
    } else {
      assert (a + b)[1..] == a[1..] + b;
      WriteConcat(WriteOne(before, a[0]), a[1..], b);
    }
  }

  lemma {:induction false} ErrorConcat(before: string, a: seq<Visit>, b: seq<Visit>, size: nat)
    ensures VisitsError(before, a + b, size) ==
      if VisitsError(before, a, size) != 0 then VisitsError(before, a, size) else VisitsError(Write(before, a), b, size)
    decreases |a|
  {
    if a == [] {
      assert a + b == b;
    } else {
      assert (a + b)[1..] == a[1..] + b;
      ErrorConcat(WriteOne(before, a[0]), a[1..], b, size);
    }
  }

  lemma {:induction false} PairsConcat(a: seq<Visit>, b: seq<Visit>)
    ensures PairsOf(a + b) == PairsOf(a) + PairsOf(b)
    decreases |a|
  {
    if a == [] {
      assert a + b == b;
    } else {
      assert (a + b)[1..] == a[1..] + b;
      PairsConcat(a[1..], b);
    }
  }

  // ---- when printing succeeds

  /** Every policy that is asked answers 0 or "no such label". */
  predicate Consenting(vs: seq<Visit>) {
    forall v :: v in vs ==> v.printed.error == 0 || v.printed.error == ENOENT
  }

  /** At every visit the text so far, the name, the slash and what the policy prints leave two places free. */
  predicate Fits(before: string, vs: seq<Visit>, size: nat) {
    forall k :: 0 <= k < |vs| ==> |Write(before, vs[..k])| + |vs[k].name| + 1 + |vs[k].printed.text| < size - 1
  }

  lemma FitsConcat(before: string, a: seq<Visit>, b: seq<Visit>, size: nat)
    ensures Fits(before, a + b, size) <==> Fits(before, a, size) && Fits(Write(before, a), b, size)
  {
    var c := a + b;
    forall k | 0 <= k < |a|
      ensures c[k] == a[k] && c[..k] == a[..k]
    {
    }
    forall k | 0 <= k < |b|
      ensures c[|a| + k] == b[k] && Write(before, c[..|a| + k]) == Write(Write(before, a), b[..k])
    {
      assert c[..|a| + k] == a + b[..k];
      WriteConcat(before, a, b[..k]);
    }
    if Fits(before, c, size) {
      assert forall k :: 0 <= k < |a| ==> c[k] == a[k] && c[..k] == a[..k];
      forall k | 0 <= k < |b|
        ensures |Write(Write(before, a), b[..k])| + |b[k].name| + 1 + |b[k].printed.text| < size - 1
      {
        assert c[|a| + k] == b[k];
      }
    }
  }

  lemma {:induction false} VisitsSucceedIff(before: string, vs: seq<Visit>, size: nat)
    ensures VisitsError(before, vs, size) == 0 <==> Consenting(vs) && Fits(before, vs, size)
    decreases |vs|
  {
    if vs != [] {
      var first, rest := vs[..1], vs[1..];
      assert vs == first + rest && first == [vs[0]];
      assert Write(before, first[..0]) == before;
      assert Write(before, first) == WriteOne(before, vs[0]);
      FitsConcat(before, first, rest, size);
      assert Fits(before, first, size) <==> |before| + |vs[0].name| + 1 + |vs[0].printed.text| < size - 1;
      assert Consenting(vs) <==> Consenting(first) && Consenting(rest);
      VisitsSucceedIff(WriteOne(before, vs[0]), rest, size);
    }
  }

  /** What a caller can look up beforehand: every policy consents, every plain request has a pair, the text fits. */
  predicate Printable(fw: Framework, before: string, pieces: seq<string>, size: nat) {
    && Consenting(AllVisits(fw, pieces))
    && (forall piece :: piece in pieces ==> Answered(fw, RequestFor(piece)))
    && Fits(before, AllVisits(fw, pieces), size)
  }

  /** Printing succeeds exactly when all this is so. */
  lemma {:induction false} PrintingSucceedsIff(fw: Framework, before: string, pieces: seq<string>, size: nat)
    ensures PiecesError(fw, before, pieces, size) == 0 <==> Printable(fw, before, pieces, size)
    decreases |pieces|
  {
    if pieces != [] {
      var vs, rest := RequestVisits(fw, RequestFor(pieces[0])), AllVisits(fw, pieces[1..]);
      VisitsSucceedIff(before, vs, size);
      PrintingSucceedsIff(fw, Write(before, vs), pieces[1..], size);
      FitsConcat(before, vs, rest, size);
      assert Consenting(vs + rest) <==> Consenting(vs) && Consenting(rest);
      assert forall piece :: piece in pieces <==> piece == pieces[0] || piece in pieces[1..];
    }
  }

  // ---- the text of quiet policies

  /** Policies that answer "no such label" have printed nothing; the rollback counts on it. */
  predicate Quiet(vs: seq<Visit>) {
    forall v :: v in vs && v.printed.error == ENOENT ==> v.printed.text == ""
  }

  /** Dropping "name/" and nothing more leaves the buffer as it was exactly when nothing was printed after it. */
  lemma RollbackIff(before: string, v: Visit)
    requires v.printed.error == ENOENT
    ensures WriteOne(before, v) == before <==> v.printed.text == ""
  {
    var s := before + v.name + "/" + v.printed.text;
    if v.printed.text == "" {
      assert s[..|before|] == before;
    }
  }

  lemma QuietOne(before: string, v: Visit)
    requires v.printed.error == 0 || (v.printed.error == ENOENT && v.printed.text == "")
    ensures WriteOne(before, v) == before + Terminated(PairsOf([v]))
  {
    assert PairsOf([v][1..]) == [];
    if v.printed.error == 0 {
      var p := Pair(v.name, v.printed.text);
      assert PairsOf([v]) == [p];
      assert [p][1..] == [];
      assert Terminated([p]) == v.name + "/" + v.printed.text + ",";
    } else {
      RollbackIff(before, v);
      assert before + Terminated([]) == before;
    }
  }

  lemma {:induction false} QuietText(before: string, vs: seq<Visit>)
    requires Consenting(vs) && Quiet(vs)
    ensures Write(before, vs) == before + Terminated(PairsOf(vs))
    decreases |vs|
  {
    if vs == [] {
      assert before + Terminated([]) == before;
    } else {
      var rest := vs[1..];
      assert vs[0] in vs && forall w :: w in rest ==> w in vs;
      QuietText(WriteOne(before, vs[0]), rest);
      assert [vs[0]] + rest == vs;
      QuietStep(before, vs[0], rest);
    }
  }

  lemma QuietStep(before: string, v: Visit, rest: seq<Visit>)
    requires v.printed.error == 0 || (v.printed.error == ENOENT && v.printed.text == "")
    requires Write(WriteOne(before, v), rest) == WriteOne(before, v) + Terminated(PairsOf(rest))
    ensures Write(before, [v] + rest) == before + Terminated(PairsOf([v] + rest))
  {
    assert ([v] + rest)[1..] == rest;
    QuietOne(before, v);
    PairsConcat([v], rest);
    Rejoin(before, PairsOf([v]), PairsOf(rest));
  }

  lemma Rejoin(before: string, a: seq<Pair>, b: seq<Pair>)
    ensures before + Terminated(a) + Terminated(b) == before + Terminated(a + b)
  {
    TerminatedConcat(a, b);
  }

  /** What the visits leave in the buffer is at least as long as the pairs, and longer if something was printed before
      an ENOENT. */
  lemma {:induction false} LengthIff(before: string, vs: seq<Visit>)
    requires Consenting(vs)
    ensures |Write(before, vs)| >= |before| + |Terminated(PairsOf(vs))|
    ensures |Write(before, vs)| == |before| + |Terminated(PairsOf(vs))| <==> Quiet(vs)
    decreases |vs|
  {
    if vs != [] {
      var v, rest := vs[0], vs[1..];
      assert vs == [v] + rest;
      assert v in vs && forall w :: w in rest ==> w in vs;
      LengthIff(WriteOne(before, v), rest);
      LengthOfOne(before, v);
      PairsConcat([v], rest);
      TerminatedConcat(PairsOf([v]), PairsOf(rest));
      assert Quiet(vs) <==> Quiet(rest) && (v.printed.error == ENOENT ==> v.printed.text == "");
    }
  }

  lemma LengthOfOne(before: string, v: Visit)
    requires v.printed.error == 0 || v.printed.error == ENOENT
    ensures |WriteOne(before, v)|
         == |before| + |Terminated(PairsOf([v]))| + (if v.printed.error == ENOENT then |v.printed.text| else 0)
  {
    assert PairsOf([v][1..]) == [];
    if v.printed.error == 0 {
      var p := Pair(v.name, v.printed.text);
      assert PairsOf([v]) == [p] && [p][1..] == [];
      assert Terminated([p]) == v.name + "/" + v.printed.text + ",";
    }
  }

  /** The text is that of the pairs exactly if all policies are quiet, before and after the last character goes. */
  lemma QuietIff(before: string, vs: seq<Visit>)
    requires Consenting(vs)
    ensures Write(before, vs) == before + Terminated(PairsOf(vs)) <==> Quiet(vs)
    ensures PairsOf(vs) != [] ==> (DropLast(Write("", vs)) == Render(PairsOf(vs)) <==> Quiet(vs))
  {
    LengthIff(before, vs);
    LengthIff("", vs);
    if Quiet(vs) {
      QuietText(before, vs);
      QuietText("", vs);
    }
  }

  /** For quiet policies the room needed is that of the pairs before and of what is being printed. */
  lemma QuietFits(vs: seq<Visit>, size: nat)
    requires Consenting(vs) && Quiet(vs)
    ensures Fits("", vs, size) <==>
      forall k :: 0 <= k < |vs| ==>
        |Terminated(PairsOf(vs[..k]))| + |vs[k].name| + 1 + |vs[k].printed.text| < size - 1
  {
    forall k | 0 <= k < |vs|
      ensures |Write("", vs[..k])| == |Terminated(PairsOf(vs[..k]))|
    {
      assert forall v :: v in vs[..k] ==> v in vs;
      QuietText("", vs[..k]);
    }
  }
}
