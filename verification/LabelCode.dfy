/** The loops that print labels through the policies and hand label text back to them. */
module LabelCode {
  import opened Base
  import opened LabelText
  import opened LabelPrint
  import opened MacError

  /** The fixed-length string buffer of the kernel. */
  class Sbuf {
    var text: string
    const size: nat
    var overflowed: bool

    ghost predicate Valid()
      reads this
    {
      |text| < size
    }

    constructor (size: nat)
      requires size > 0
      ensures Valid() && text == "" && !overflowed && this.size == size
    {
      text, overflowed := "", false;
      this.size := size;
    }

    /** sbuf_vprintf: filling the buffer to the last place already counts as overflow. */
    method Printf(s: string) returns (error: int)
      requires Valid()
      modifies this
      ensures Valid()
      ensures error == 0 <==> !old(overflowed) && |old(text)| + |s| < size - 1
      ensures error == 0 ==> text == old(text) + s && !overflowed
      ensures error != 0 ==> error == -1 && overflowed
    {
      if overflowed {
        return -1;
      }
      var free := size - |text| - 1;
      text := text + s[..if |s| <= free then |s| else free];
      if |text| >= size - 1 {
        overflowed := true;
      }
      error := if overflowed then -1 else 0;
    }

    method Putc(c: char) returns (error: int)
      requires Valid()
      modifies this
      ensures Valid()
      ensures error == 0 <==> !old(overflowed) && |old(text)| < size - 1
      ensures error == 0 ==> text == old(text) + [c] && !overflowed
      ensures error != 0 ==> error == -1 && overflowed
    {
      if overflowed {
        return -1;
      }
      if |text| >= size - 1 {
        overflowed := true;
        return -1;
      }
      text := text + [c];
      error := 0;
    }

    method Setpos(pos: int)
      requires Valid()
      modifies this
      ensures Valid() && overflowed == old(overflowed)
      ensures text == if 0 <= pos <= |old(text)| then old(text)[..pos] else old(text)
    {
      if pos < 0 || pos > |text| {
        return;
      }
      text := text[..pos];
    }

    method Len() returns (n: int)
      requires Valid()
      ensures n == if overflowed then -1 else |text|
    {
      n := if overflowed then -1 else |text|;
    }
  }

  /** Lines 1158-1187: one listener.  `count` tells whether it printed a pair. */
  method ExternalizeOne(p: Option<Printed>, name: string, sb: Sbuf) returns (error: int, count: nat)
    requires sb.Valid() && !sb.overflowed
    modifies sb
    ensures sb.Valid()
    ensures error == if p.None? then 0 else VisitError(|old(sb.text)|, Visit(name, p.value), sb.size)
    ensures error == 0 ==> !sb.overflowed && count == (if p.Some? && p.value.error == 0 then 1 else 0)
    ensures error == 0 ==> sb.text == if p.None? then old(sb.text) else WriteOne(old(sb.text), Visit(name, p.value))
  {
    error, count := 0, 0;
    if p.None? {
      return;
    }
    ghost var before := sb.text;
    error := sb.Printf(name + "/");
    if error != 0 {
      return;
    }
    error := sb.Printf(p.value.text);
    if error == 0 {
      error := p.value.error;
    }
    assert error == 0 || error == ENOENT ==> sb.text == before + (name + "/") + p.value.text
                                             == before + name + "/" + p.value.text;
    if error != 0 {
      if error != ENOENT {
        return;
      }
      var len := sb.Len();
      sb.Setpos(len - (|name| + 1));
      error := 0;
      return;
    }
    error := sb.Putc(',');
    count := 1;
  }

  /** What is left of a row of visits; the part before has gone well and printed count pairs. */
  predicate Underway(before: string, all: seq<Visit>, cur: string, rest: seq<Visit>, count: nat, size: nat) {
    && VisitsError(before, all, size) == VisitsError(cur, rest, size)
    && Write(before, all) == Write(cur, rest)
    && |PairsOf(all)| == count + |PairsOf(rest)|
  }

  lemma UnderwayStep(before: string, all: seq<Visit>, cur: string, some: seq<Visit>, rest: seq<Visit>, count: nat,
      size: nat)
    requires Underway(before, all, cur, some + rest, count, size)
    ensures var e := VisitsError(cur, some, size);
      if e != 0 then VisitsError(before, all, size) == e
      else Underway(before, all, Write(cur, some), rest, count + |PairsOf(some)|, size)
  {
    ErrorConcat(cur, some, rest, size);
    WriteConcat(cur, some, rest);
    PairsConcat(some, rest);
  }

  /** One visit, or none if the policy lacks the operation. */
  lemma AtMostOne(cur: string, name: string, p: Option<Printed>, size: nat)
    ensures var some := if p.Some? then [Visit(name, p.value)] else [];
      && VisitsError(cur, some, size) == (if p.None? then 0 else VisitError(|cur|, Visit(name, p.value), size))
      && Write(cur, some) == (if p.None? then cur else WriteOne(cur, Visit(name, p.value)))
      && |PairsOf(some)| == (if p.Some? && p.value.error == 0 then 1 else 0)
  {
    if p.Some? {
      var some := [Visit(name, p.value)];
      assert some[1..] == [];
    }
  }

  /** One turn of the loop over listeners. */
  method ExternalizeNext(fw: Framework, mleName: string, name: string, h: nat, sb: Sbuf, count0: nat,
                         ghost later: seq<nat>, ghost before: string, ghost all: seq<Visit>)
    returns (error: int, count: nat)
    requires sb.Valid() && !sb.overflowed
    requires Underway(before, all, sb.text, ListenerVisits(fw, mleName, name, [h] + later), count0, sb.size)
    modifies sb
    ensures sb.Valid() && (error != 0 ==> error == VisitsError(before, all, sb.size))
    ensures error == 0 ==> !sb.overflowed
                           && Underway(before, all, sb.text, ListenerVisits(fw, mleName, name, later), count, sb.size)
  {
    var p := fw.externalizer(h, mleName);
    ghost var some := if p.Some? then [Visit(name, p.value)] else [];
    assert ([h] + later)[1..] == later;
    UnderwayStep(before, all, sb.text, some, ListenerVisits(fw, mleName, name, later), count0, sb.size);
    AtMostOne(sb.text, name, p, sb.size);
    error, count := ExternalizeOne(p, name, sb);
    count := count0 + count;
  }

  /** Lines 1157-1188: all listeners of one element. */
  method ExternalizeListeners(fw: Framework, mleName: string, name: string, hs: seq<nat>, sb: Sbuf)
    returns (error: int, count: nat)
    requires sb.Valid() && !sb.overflowed
    modifies sb
    ensures sb.Valid() && error == VisitsError(old(sb.text), ListenerVisits(fw, mleName, name, hs), sb.size)
    ensures error == 0 ==> !sb.overflowed && sb.text == Write(old(sb.text), ListenerVisits(fw, mleName, name, hs))
                           && count == |PairsOf(ListenerVisits(fw, mleName, name, hs))|
  {
    error, count := 0, 0;
    ghost var before, all := sb.text, ListenerVisits(fw, mleName, name, hs);
    var i := 0;
    while i < |hs|
      invariant 0 <= i <= |hs| && sb.Valid() && !sb.overflowed && error == 0
      invariant Underway(before, all, sb.text, ListenerVisits(fw, mleName, name, hs[i..]), count, sb.size)
    {
      assert hs[i..] == [hs[i]] + hs[i + 1..];
      error, count := ExternalizeNext(fw, mleName, name, hs[i], sb, count, hs[i + 1..], before, all);
      if error != 0 {
        return;
      }
      i := i + 1;
    }
  }

  /** One element, if it answers to the request. */
  method ExternalizeElement(fw: Framework, req: Request, e: Element, sb: Sbuf) returns (error: int, count: nat)
    requires sb.Valid() && !sb.overflowed
    modifies sb
    ensures sb.Valid() && error == VisitsError(old(sb.text), ElementVisits(fw, req, e), sb.size)
    ensures error == 0 ==> !sb.overflowed && sb.text == Write(old(sb.text), ElementVisits(fw, req, e))
                           && count == |PairsOf(ElementVisits(fw, req, e))|
  {
    error, count := 0, 0;
    var name := NameFor(req, e.name);
    if name.Some? {
      error, count := ExternalizeListeners(fw, e.name, name.value, e.listeners, sb);
    }
  }

  /** One turn of the loop over elements. */
  method ExternalizeNextElement(fw: Framework, req: Request, e: Element, sb: Sbuf, count0: nat,
                                ghost later: seq<Element>, ghost before: string, ghost all: seq<Visit>)
    returns (error: int, count: nat)
    requires sb.Valid() && !sb.overflowed
    requires Underway(before, all, sb.text, ListVisits(fw, req, [e] + later), count0, sb.size)
    modifies sb
    ensures sb.Valid() && (error != 0 ==> error == VisitsError(before, all, sb.size))
    ensures error == 0 ==> !sb.overflowed
                           && Underway(before, all, sb.text, ListVisits(fw, req, later), count, sb.size)
  {
    assert ([e] + later)[1..] == later;
    UnderwayStep(before, all, sb.text, ElementVisits(fw, req, e), ListVisits(fw, req, later), count0, sb.size);
    error, count := ExternalizeElement(fw, req, e, sb);
    count := count0 + count;
  }

  /** Lines 1146-1189: one element list. */
  method ExternalizeList(fw: Framework, req: Request, list: seq<Element>, sb: Sbuf) returns (error: int, count: nat)
    requires sb.Valid() && !sb.overflowed
    modifies sb
    ensures sb.Valid() && error == VisitsError(old(sb.text), ListVisits(fw, req, list), sb.size)
    ensures error == 0 ==> !sb.overflowed && sb.text == Write(old(sb.text), ListVisits(fw, req, list))
                           && count == |PairsOf(ListVisits(fw, req, list))|
  {
    error, count := 0, 0;
    ghost var before, all := sb.text, ListVisits(fw, req, list);
    var i := 0;
    while i < |list|
      invariant 0 <= i <= |list| && sb.Valid() && !sb.overflowed && error == 0
      invariant Underway(before, all, sb.text, ListVisits(fw, req, list[i..]), count, sb.size)
    {
      assert list[i..] == [list[i]] + list[i + 1..];
      error, count := ExternalizeNextElement(fw, req, list[i], sb, count, list[i + 1..], before, all);
      if error != 0 {
        return;
      }
      i := i + 1;
    }
  }

  /** Lines 1126-1204: the first failure of the visits, or ENOENT for a plain request that no policy answers. */
  method LabelExternalize(fw: Framework, element: string, sb: Sbuf) returns (error: int)
    requires sb.Valid() && !sb.overflowed
    modifies sb
    ensures sb.Valid() && error == RequestError(fw, old(sb.text), RequestFor(element), sb.size)
    ensures error == 0 ==> !sb.overflowed && sb.text == Write(old(sb.text), RequestVisits(fw, RequestFor(element)))
  {
    var req := RequestFor(element);
    ghost var before, first := sb.text, ListVisits(fw, req, fw.statics);
    ghost var second := if fw.busy then ListVisits(fw, req, fw.dynamics) else [];
    ErrorConcat(before, first, second, sb.size);
    WriteConcat(before, first, second);
    PairsConcat(first, second);
    var count, more;
    error, count := ExternalizeList(fw, req, fw.statics, sb);
    if error == 0 && fw.busy {
      error, more := ExternalizeList(fw, req, fw.dynamics, sb);
      count := count + more;
    }
    if error == 0 && count == 0 {
      if !req.All? && !req.ignoreNotFound {
        error := ENOENT;
      }
    }
  }

  /** strsep on a text of which `pos` is the unread part. */
  method Strsep(pos: Option<string>, sep: char) returns (tok: Option<string>, pos': Option<string>)
    ensures pos.None? ==> tok.None? && pos'.None?
    ensures pos.Some? ==> tok == Some(Cut(pos.value, sep).0) && pos' == Cut(pos.value, sep).1
  {
    if pos.None? {
      return None, None;
    }
    var s := pos.value;
    var i := 0;
    while i < |s| && s[i] != sep
      invariant 0 <= i <= |s| && sep !in s[..i]
    {
      assert s[..i + 1] == s[..i] + [s[i]];
      i := i + 1;
    }
    if i < |s| {
      assert s == s[..i] + [sep] + s[i + 1..];
      CutAt(s[..i], sep, s[i + 1..]);
      return Some(s[..i]), Some(s[i + 1..]);
    }
    assert s[..i] == s;
    CutNone(s, sep);
    return Some(s), None;
  }

  /** What is still to be split. */
  function Remaining(pos: Option<string>, sep: char): seq<string> {
    if pos.None? then [] else Split(pos.value, sep)
  }

  /** Lines 1213-1260: success exactly if everything is printable; the text is then what the visits leave behind:
      the pairs of all requested elements, in order, exactly if all policies are quiet. */
  method Externalize(fw: Framework, elementList: string, size: nat) returns (error: int, out: string)
    requires size > 0
    ensures |out| < size
    ensures error == PiecesError(fw, "", Split(elementList, ','), size)
    ensures error == 0 <==> Printable(fw, "", Split(elementList, ','), size)
    ensures error == 0 ==> out == DropLast(Write("", AllVisits(fw, Split(elementList, ','))))
    ensures error == 0 && Quiet(AllVisits(fw, Split(elementList, ','))) ==>
      out == Render(PairsOf(AllVisits(fw, Split(elementList, ','))))
    ensures var visits := AllVisits(fw, Split(elementList, ','));
      error == 0 && PairsOf(visits) != [] ==> (out == Render(PairsOf(visits)) <==> Quiet(visits))
  {
    ghost var pieces := Split(elementList, ',');
    var sb := new Sbuf(size);
    error := 0;
    var pos := Some(elementList);
    while pos.Some?
      invariant sb.Valid() && !sb.overflowed && error == 0
      invariant PiecesError(fw, "", pieces, size) == PiecesError(fw, sb.text, Remaining(pos, ','), size)
      invariant Write("", AllVisits(fw, pieces)) == Write(sb.text, AllVisits(fw, Remaining(pos, ',')))
      decreases if pos.Some? then |pos.value| + 1 else 0
    {
      var tok;
      ghost var before, unread := sb.text, Remaining(pos, ',');
      tok, pos := Strsep(pos, ',');
      assert unread[1..] == Remaining(pos, ',') && unread[0] == tok.value;
      WriteConcat(before, RequestVisits(fw, RequestFor(tok.value)), AllVisits(fw, unread[1..]));
      error := LabelExternalize(fw, tok.value, sb);
      if error != 0 {
        break;
      }
    }
    PrintingSucceedsIff(fw, "", pieces, size);
    if error == 0 {
      QuietIff("", AllVisits(fw, pieces));
    }
    out := Trim(sb);
  }

  /** Lines 1251-1253: the last character goes, if there is one. */
  method Trim(sb: Sbuf) returns (out: string)
    requires sb.Valid()
    modifies sb
    ensures |out| < sb.size && (old(!sb.overflowed) ==> out == DropLast(old(sb.text)))
  {
    var len := sb.Len();
    if len > 0 {
      sb.Setpos(len - 1);
    }
    out := sb.text;
  }

  // ---- internalize

  /** A policy was asked to set one label element. */
  datatype Call = Call(handle: nat, name: string, data: string)

  /** The listeners of one element that can set labels. */
  function Able(fw: Framework, hs: seq<nat>, n: nat): seq<nat>
    requires n <= |hs|
  {
    if n == 0 then [] else Able(fw, hs, n - 1) + (if fw.hasInternalizer(hs[n - 1]) then [hs[n - 1]] else [])
  }

  function TargetsIn(fw: Framework, list: seq<Element>, name: string, n: nat): seq<nat>
    requires n <= |list|
  {
    if n == 0 then []
    else
      TargetsIn(fw, list, name, n - 1)
      + (if WithoutMark(list[n - 1].name) == name then Able(fw, list[n - 1].listeners, |list[n - 1].listeners|) else [])
  }

  /** Every policy that is to be asked about a name, in order. */
  function Targets(fw: Framework, name: string): seq<nat> {
    TargetsIn(fw, fw.statics, name, |fw.statics|)
    + (if fw.busy then TargetsIn(fw, fw.dynamics, name, |fw.dynamics|) else [])
  }

  function Calls(hs: seq<nat>, p: Pair): seq<Call> {
    seq(|hs|, i requires 0 <= i < |hs| => Call(hs[i], p.name, p.data))
  }

  ghost predicate Willing(fw: Framework, hs: seq<nat>, p: Pair) {
    forall h :: h in hs ==> fw.internalizer(h, p.name, p.data) == 0
  }

  /** The error of the first policy, in order, that refuses the pair; 0 if none does. */
  function FirstRefusal(fw: Framework, hs: seq<nat>, p: Pair): int {
    if hs == [] then 0
    else if fw.internalizer(hs[0], p.name, p.data) != 0 then fw.internalizer(hs[0], p.name, p.data)
    else FirstRefusal(fw, hs[1..], p)
  }

  lemma {:induction false} RefusalMeans(fw: Framework, hs: seq<nat>, p: Pair)
    ensures FirstRefusal(fw, hs, p) == 0 <==> Willing(fw, hs, p)
    ensures FirstRefusal(fw, hs, p) != 0 ==> exists k ::
      && 0 <= k < |hs| && fw.internalizer(hs[k], p.name, p.data) == FirstRefusal(fw, hs, p)
      && forall j :: 0 <= j < k ==> fw.internalizer(hs[j], p.name, p.data) == 0
  {
    if hs != [] {
      RefusalMeans(fw, hs[1..], p);
      assert forall h :: h in hs <==> h == hs[0] || h in hs[1..];
      var e := FirstRefusal(fw, hs[1..], p);
      if fw.internalizer(hs[0], p.name, p.data) != 0 {
        assert fw.internalizer(hs[0], p.name, p.data) == FirstRefusal(fw, hs, p);
      } else if e != 0 {
        var k :| 0 <= k < |hs| - 1 && fw.internalizer(hs[1..][k], p.name, p.data) == e
          && forall j :: 0 <= j < k ==> fw.internalizer(hs[1..][j], p.name, p.data) == 0;
        assert hs[k + 1] == hs[1..][k];
        forall j | 0 <= j < k + 1
          ensures fw.internalizer(hs[j], p.name, p.data) == 0
        {
          assert j > 0 ==> hs[j] == hs[1..][j - 1];
        }
      }
    }
  }

  lemma {:induction false} RefusalConcat(fw: Framework, a: seq<nat>, b: seq<nat>, p: Pair)
    ensures FirstRefusal(fw, a + b, p)
         == if FirstRefusal(fw, a, p) != 0 then FirstRefusal(fw, a, p) else FirstRefusal(fw, b, p)
  {
    if a == [] {
      assert a + b == b;
    } else {
      assert (a + b)[1..] == a[1..] + b;
      RefusalConcat(fw, a[1..], b, p);
    }
  }

  lemma CallsMore(a: seq<nat>, b: seq<nat>, p: Pair)
    ensures Calls(a + b, p) == Calls(a, p) + Calls(b, p)
  {
  }

  lemma OneMoreListener(fw: Framework, hs: seq<nat>, i: nat, p: Pair)
    requires i < |hs|
    ensures var one := if fw.hasInternalizer(hs[i]) then [hs[i]] else [];
      && (FirstRefusal(fw, Able(fw, hs, i), p) == 0 ==>
            FirstRefusal(fw, Able(fw, hs, i + 1), p) == FirstRefusal(fw, one, p))
      && Calls(Able(fw, hs, i + 1), p) == Calls(Able(fw, hs, i), p) + Calls(one, p)
  {
    var one := if fw.hasInternalizer(hs[i]) then [hs[i]] else [];
    assert Able(fw, hs, i + 1) == Able(fw, hs, i) + one;
    RefusalConcat(fw, Able(fw, hs, i), one, p);
    CallsMore(Able(fw, hs, i), one, p);
  }

  lemma UnableStays(fw: Framework, hs: seq<nat>, p: Pair, i: nat)
    requires i <= |hs| && FirstRefusal(fw, Able(fw, hs, i), p) != 0
    ensures FirstRefusal(fw, Able(fw, hs, |hs|), p) == FirstRefusal(fw, Able(fw, hs, i), p)
  {
    var more := AbleGrows(fw, hs, i, |hs|);
    RefusalConcat(fw, Able(fw, hs, i), more, p);
  }

  /** One listener: asked if it has an internalizer. */
  method InternalizeListener(fw: Framework, h: nat, p: Pair) returns (error: int, calls: seq<Call>)
    ensures var one := if fw.hasInternalizer(h) then [h] else [];
      error == FirstRefusal(fw, one, p) && calls == Calls(one, p)
  {
    error, calls := 0, [];
    if fw.hasInternalizer(h) {
      assert h in [h];
      error := fw.internalizer(h, p.name, p.data);
      calls := [Call(h, p.name, p.data)];
    }
  }

  /** Lines 1286-1299: the listeners of one element; the first refusal ends the walk. */
  method InternalizeElement(fw: Framework, hs: seq<nat>, p: Pair) returns (error: int, calls: seq<Call>)
    ensures error == FirstRefusal(fw, Able(fw, hs, |hs|), p)
    ensures error == 0 ==> calls == Calls(Able(fw, hs, |hs|), p)
  {
    error, calls := 0, [];
    var i := 0;
    while i < |hs|
      invariant 0 <= i <= |hs| && error == 0
      invariant FirstRefusal(fw, Able(fw, hs, i), p) == 0 && calls == Calls(Able(fw, hs, i), p)
    {
      OneMoreListener(fw, hs, i, p);
      var made;
      error, made := InternalizeListener(fw, hs[i], p);
      calls := calls + made;
      if error != 0 {
        UnableStays(fw, hs, p, i + 1);
        return;
      }
      i := i + 1;
    }
  }

  lemma {:induction false} AbleGrows(fw: Framework, hs: seq<nat>, i: nat, n: nat) returns (more: seq<nat>)
    requires i <= n <= |hs|
    ensures Able(fw, hs, n) == Able(fw, hs, i) + more
    decreases n - i
  {
    more := [];
    if i < n {
      more := AbleGrows(fw, hs, i, n - 1);
      more := more + (if fw.hasInternalizer(hs[n - 1]) then [hs[n - 1]] else []);
    }
  }

  lemma {:induction false} TargetsGrow(fw: Framework, list: seq<Element>, name: string, i: nat, n: nat)
    returns (more: seq<nat>)
    requires i <= n <= |list|
    ensures TargetsIn(fw, list, name, n) == TargetsIn(fw, list, name, i) + more
    decreases n - i
  {
    more := [];
    if i < n {
      more := TargetsGrow(fw, list, name, i, n - 1);
      more := more + TargetsOf(fw, list[n - 1], name);
    }
  }

  /** The policies to be asked for one element: its able listeners if it has the name, apart from a mark. */
  function TargetsOf(fw: Framework, e: Element, name: string): seq<nat> {
    if WithoutMark(e.name) == name then Able(fw, e.listeners, |e.listeners|) else []
  }

  method InternalizeNamed(fw: Framework, e: Element, p: Pair) returns (error: int, calls: seq<Call>)
    ensures error == FirstRefusal(fw, TargetsOf(fw, e, p.name), p)
    ensures error == 0 ==> calls == Calls(TargetsOf(fw, e, p.name), p)
  {
    error, calls := 0, [];
    if WithoutMark(e.name) == p.name {
      error, calls := InternalizeElement(fw, e.listeners, p);
    }
  }

  lemma OneMoreElement(fw: Framework, list: seq<Element>, i: nat, p: Pair)
    requires i < |list|
    ensures FirstRefusal(fw, TargetsIn(fw, list, p.name, i), p) == 0 ==>
      FirstRefusal(fw, TargetsIn(fw, list, p.name, i + 1), p) == FirstRefusal(fw, TargetsOf(fw, list[i], p.name), p)
    ensures Calls(TargetsIn(fw, list, p.name, i + 1), p)
         == Calls(TargetsIn(fw, list, p.name, i), p) + Calls(TargetsOf(fw, list[i], p.name), p)
  {
    var before, more := TargetsIn(fw, list, p.name, i), TargetsOf(fw, list[i], p.name);
    assert TargetsIn(fw, list, p.name, i + 1) == before + more;
    RefusalConcat(fw, before, more, p);
    CallsMore(before, more, p);
  }

  lemma UnwillingStays(fw: Framework, list: seq<Element>, p: Pair, i: nat)
    requires i <= |list| && FirstRefusal(fw, TargetsIn(fw, list, p.name, i), p) != 0
    ensures FirstRefusal(fw, TargetsIn(fw, list, p.name, |list|), p)
         == FirstRefusal(fw, TargetsIn(fw, list, p.name, i), p)
  {
    var more := TargetsGrow(fw, list, p.name, i, |list|);
    RefusalConcat(fw, TargetsIn(fw, list, p.name, i), more, p);
  }

  /** Lines 1281-1300: one element list. */
  method InternalizeList(fw: Framework, list: seq<Element>, p: Pair) returns (error: int, calls: seq<Call>)
    ensures error == FirstRefusal(fw, TargetsIn(fw, list, p.name, |list|), p)
    ensures error == 0 ==> calls == Calls(TargetsIn(fw, list, p.name, |list|), p)
  {
    error, calls := 0, [];
    var i := 0;
    while i < |list|
      invariant 0 <= i <= |list| && error == 0
      invariant FirstRefusal(fw, TargetsIn(fw, list, p.name, i), p) == 0
      invariant calls == Calls(TargetsIn(fw, list, p.name, i), p)
    {
      OneMoreElement(fw, list, i, p);
      var made;
      error, made := InternalizeNamed(fw, list[i], p);
      calls := calls + made;
      if error != 0 {
        UnwillingStays(fw, list, p, i + 1);
        return;
      }
      i := i + 1;
    }
  }

  /** Somebody is there to take the pair, and everybody there takes it. */
  ghost predicate Accepted(fw: Framework, p: Pair) {
    Targets(fw, p.name) != [] && Willing(fw, Targets(fw, p.name), p)
  }

  /** The error of the first policy to refuse, or ENOPOLICY if there is nobody to ask. */
  function LabelError(fw: Framework, p: Pair): int {
    if Targets(fw, p.name) == [] then ENOPOLICY else FirstRefusal(fw, Targets(fw, p.name), p)
  }

  lemma LabelErrorMeans(fw: Framework, p: Pair)
    ensures LabelError(fw, p) == 0 <==> Accepted(fw, p)
  {
    RefusalMeans(fw, Targets(fw, p.name), p);
  }

  /** Lines 1266-1313. */
  method LabelInternalize(fw: Framework, p: Pair) returns (error: int, calls: seq<Call>)
    ensures error == LabelError(fw, p)
    ensures error == 0 <==> Accepted(fw, p)
    ensures error == 0 ==> calls == Calls(Targets(fw, p.name), p)
  {
    LabelErrorMeans(fw, p);
    ghost var a := TargetsIn(fw, fw.statics, p.name, |fw.statics|);
    ghost var b := TargetsIn(fw, fw.dynamics, p.name, |fw.dynamics|);
    RefusalConcat(fw, a, b, p);
    CallsMore(a, b, p);
    error, calls := InternalizeList(fw, fw.statics, p);
    if error == 0 && fw.busy {
      var more;
      error, more := InternalizeList(fw, fw.dynamics, p);
      calls := calls + more;
    }
    assert !fw.busy ==> Targets(fw, p.name) == a;
    if error == 0 && |calls| == 0 {
      error := ENOPOLICY;
    }
  }

  function AllCalls(fw: Framework, ps: seq<Pair>): seq<Call> {
    if ps == [] then [] else AllCalls(fw, ps[..|ps| - 1]) + Calls(Targets(fw, ps[|ps| - 1].name), ps[|ps| - 1])
  }

  ghost predicate AllAccepted(fw: Framework, ps: seq<Pair>) {
    forall p :: p in ps ==> Accepted(fw, p)
  }

  /** The error of the first piece that cannot be read: EINVAL without a slash, otherwise that of the pair. */
  function TextError(fw: Framework, pieces: seq<string>): int {
    if pieces == [] then 0
    else
      var p := ParsePiece(pieces[0]);
      if p.None? then EINVAL
      else if LabelError(fw, p.value) != 0 then LabelError(fw, p.value)
      else TextError(fw, pieces[1..])
  }

  /** Piece k is the first to fail, and fails with that error. */
  ghost predicate FailsAt(fw: Framework, pieces: seq<string>, k: nat, error: int)
    requires k < |pieces|
  {
    && (forall j :: 0 <= j < k ==> ParsePiece(pieces[j]).Some? && Accepted(fw, ParsePiece(pieces[j]).value))
    && (if '/' !in pieces[k] then error == EINVAL
        else ParsePiece(pieces[k]).Some? && error == LabelError(fw, ParsePiece(pieces[k]).value) != 0)
  }

  lemma {:induction false} TextErrorMeans(fw: Framework, pieces: seq<string>)
    ensures TextError(fw, pieces) != 0 ==>
      exists k :: 0 <= k < |pieces| && FailsAt(fw, pieces, k, TextError(fw, pieces))
  {
    if pieces != [] && TextError(fw, pieces) != 0 {
      SlashIff(pieces[0]);
      var p := ParsePiece(pieces[0]);
      if p.None? || LabelError(fw, p.value) != 0 {
        assert FailsAt(fw, pieces, 0, TextError(fw, pieces));
      } else {
        LabelErrorMeans(fw, p.value);
        var rest := pieces[1..];
        TextErrorMeans(fw, rest);
        var k :| 0 <= k < |rest| && FailsAt(fw, rest, k, TextError(fw, rest));
        forall j | 0 <= j < k + 1
          ensures ParsePiece(pieces[j]).Some? && Accepted(fw, ParsePiece(pieces[j]).value)
        {
          assert j > 0 ==> pieces[j] == rest[j - 1];
        }
        assert FailsAt(fw, pieces, k + 1, TextError(fw, pieces));
      }
    }
  }

  lemma SlashIff(piece: string)
    ensures ParsePiece(piece).Some? <==> '/' in piece
  {
    var (name, data) := Cut(piece, '/');
    if data.Some? {
      assert piece[|name|] == '/';
    }
  }

  /** Lines 1315-1333: success exactly when the text parses and every pair of it is accepted. */
  method Internalize(fw: Framework, textLabels: string) returns (error: int, calls: seq<Call>)
    ensures error == TextError(fw, Split(textLabels, ','))
    ensures error == 0 <==> Parse(textLabels).Some? && AllAccepted(fw, Parse(textLabels).value)
    ensures error == 0 ==> calls == AllCalls(fw, Parse(textLabels).value)
  {
    error, calls := 0, [];
    var pos := Some(textLabels);
    ghost var done: seq<Pair> := [];
    assert Parse(textLabels).Some? ==> [] + Parse(textLabels).value == Parse(textLabels).value;
    while error == 0 && pos.Some?
      invariant if error == 0 then TextError(fw, Split(textLabels, ',')) == TextError(fw, Remaining(pos, ','))
                else error == TextError(fw, Split(textLabels, ','))
      invariant error == 0 ==> ParsedSoFar(textLabels, done, pos)
      invariant error == 0 ==> AllAccepted(fw, done) && calls == AllCalls(fw, done)
      invariant error != 0 ==> !(Parse(textLabels).Some? && AllAccepted(fw, Parse(textLabels).value))
      decreases if pos.Some? then |pos.value| + 1 else 0
    {
      ghost var unread := pos.value;
      var tok, data, name;
      tok, pos := Strsep(pos, ',');
      assert Split(unread, ',')[0] == tok.value && Split(unread, ',')[1..] == Remaining(pos, ',');
      name, data := Strsep(tok, '/');
      ParsedMore(textLabels, done, unread);
      if data.None? {
        error := EINVAL;
        break;
      }
      var p, made := Pair(name.value, data.value), [];
      error, made := LabelInternalize(fw, p);
      assert error != 0 && Parse(textLabels).Some? ==> p in Parse(textLabels).value;
      calls := calls + made;
      assert (done + [p])[..|done|] == done;
      done := done + [p];
    }
  }

  /** The pairs read so far, followed by those still to be read, are those of the whole text. */
  ghost predicate ParsedSoFar(text: string, done: seq<Pair>, pos: Option<string>) {
    if pos.None? then Parse(text) == Some(done)
    else
      var rest := Parse(pos.value);
      Parse(text) == if rest.None? then None else Some(done + rest.value)
  }

  lemma ParsedMore(text: string, done: seq<Pair>, unread: string)
    requires ParsedSoFar(text, done, Some(unread))
    ensures var (tok, pos) := Cut(unread, ',');
            var p := ParsePiece(tok);
            if p.None? then Parse(text) == None
            else ParsedSoFar(text, done + [p.value], pos)
                 && (Parse(text).Some? ==> p.value in Parse(text).value)
  {
    ParseStep(unread);
    var (tok, pos) := Cut(unread, ',');
    var p := ParsePiece(tok);
    if p.Some? {
      if pos.Some? && Parse(pos.value).Some? {
        Regroup(done, p.value, Parse(pos.value).value);
      } else if pos.None? {
        Regroup(done, p.value, []);
      }
    }
  }

  lemma Regroup(done: seq<Pair>, p: Pair, rest: seq<Pair>)
    ensures done + ([p] + rest) == (done + [p]) + rest && done + [p] + [] == done + [p] && [p] + [] == [p]
    ensures p in done + ([p] + rest)
  {
    assert (done + ([p] + rest))[|done|] == p;
  }

  /** One policy is responsible for the name, and it takes what was printed. */
  ghost predicate OneTaker(fw: Framework, p: Pair, h: nat) {
    Targets(fw, p.name) == [h] && fw.internalizer(h, p.name, p.data) == 0
  }

  /** The pairs that the policies print for a list of elements. */
  function AllPairs(fw: Framework, elementList: string): seq<Pair> {
    PairsOf(AllVisits(fw, Split(elementList, ',')))
  }

  /**
   Printing the labels of all requested elements and reading the text back asks, for every pair that was
   printed and in the same order, the one policy that listens to its name, with exactly its data.
   */
  method PrintThenRead(fw: Framework, elementList: string, size: nat, ghost taker: Pair -> nat)
    returns (printed: int, out: string, error: int, calls: seq<Call>)
    requires size > 0 && Quiet(AllVisits(fw, Split(elementList, ',')))
    requires forall p :: p in AllPairs(fw, elementList) ==> Clean(p) && OneTaker(fw, p, taker(p))
    ensures printed == 0 <==> Printable(fw, "", Split(elementList, ','), size)
    ensures Printable(fw, "", Split(elementList, ','), size) && AllPairs(fw, elementList) != [] ==>
              var ps := AllPairs(fw, elementList);
              out == Render(ps) && error == 0 && |calls| == |ps|
              && forall i :: 0 <= i < |ps| ==> calls[i] == Call(taker(ps[i]), ps[i].name, ps[i].data)
  {
    printed, out := Externalize(fw, elementList, size);
    error, calls := Internalize(fw, out);
    ghost var ps := AllPairs(fw, elementList);
    if printed == 0 && ps != [] {
      ParseRender(ps);
      OneCallEach(fw, ps, taker);
    }
  }

  lemma {:induction false} OneCallEach(fw: Framework, ps: seq<Pair>, taker: Pair -> nat)
    requires forall p :: p in ps ==> OneTaker(fw, p, taker(p))
    ensures AllAccepted(fw, ps) && |AllCalls(fw, ps)| == |ps|
    ensures forall i :: 0 <= i < |ps| ==> AllCalls(fw, ps)[i] == Call(taker(ps[i]), ps[i].name, ps[i].data)
  {
    if ps != [] {
      var before, last := ps[..|ps| - 1], ps[|ps| - 1];
      OneCallEach(fw, before, taker);
      assert last in ps && OneTaker(fw, last, taker(last));
      assert Calls([taker(last)], last) == [Call(taker(last), last.name, last.data)];
      forall p | p in ps ensures Accepted(fw, p) { assert OneTaker(fw, p, taker(p)); }
      forall i | 0 <= i < |ps| - 1 ensures AllCalls(fw, ps)[i] == Call(taker(ps[i]), ps[i].name, ps[i].data) {
        assert before[i] == ps[i];
      }
    }
  }
}
