/** The text form of labels: "name/data" pairs separated by commas, and how it is cut up again. */
module LabelText {
  import opened Base

  datatype Pair = Pair(name: string, data: string)

  function PairText(p: Pair): string {
    p.name + "/" + p.data
  }

  /** What the printing loop leaves behind: every pair followed by a comma. */
  function Terminated(ps: seq<Pair>): string {
    if ps == [] then "" else PairText(ps[0]) + "," + Terminated(ps[1..])
  }

  function DropLast(s: string): string {
    if s == "" then "" else s[..|s| - 1]
  }

  /** After the trailing comma is trimmed. */
  function Render(ps: seq<Pair>): string {
    DropLast(Terminated(ps))
  }

  /** strsep: the text up to the first separator, and what follows it if there is one. */
  function Cut(s: string, sep: char): (r: (string, Option<string>))
    ensures sep !in r.0
    ensures r.1.None? ==> r.0 == s
    ensures r.1.Some? ==> s == r.0 + [sep] + r.1.value && |r.1.value| < |s|
  {
    if s == "" then ("", None)
    else if s[0] == sep then ("", Some(s[1..]))
    else
      var (tok, rest) := Cut(s[1..], sep);
      assert s == [s[0]] + s[1..];
      ([s[0]] + tok, rest)
  }

  /** All the pieces that repeated strsep calls yield; there is always at least one. */
  function Split(s: string, sep: char): (r: seq<string>)
    ensures r != []
    decreases |s|
  {
    var (tok, rest) := Cut(s, sep);
    if rest.None? then [tok] else [tok] + Split(rest.value, sep)
  }

  /** One piece as a pair: name before the first slash, data after it. */
  function ParsePiece(piece: string): Option<Pair> {
    var (name, data) := Cut(piece, '/');
    if data.None? then None else Some(Pair(name, data.value))
  }

  function ParsePieces(pieces: seq<string>): Option<seq<Pair>> {
    if pieces == [] then Some([])
    else
      var p := ParsePiece(pieces[0]);
      if p.None? then None
      else
        var rest := ParsePieces(pieces[1..]);
        if rest.None? then None else Some([p.value] + rest.value)
  }

  function Parse(text: string): Option<seq<Pair>> {
    ParsePieces(Split(text, ','))
  }

  /** Parsing a text is parsing its first piece and then the rest. */
  lemma ParseStep(text: string)
    ensures var (tok, rest) := Cut(text, ',');
            var p := ParsePiece(tok);
            Parse(text) == if p.None? then None
                           else if rest.None? then Some([p.value])
                           else if Parse(rest.value).None? then None
                           else Some([p.value] + Parse(rest.value).value)
  {
    var (tok, rest) := Cut(text, ',');
    var pieces := Split(text, ',');
    if rest.None? {
      assert pieces == [tok] && pieces[1..] == [];
      assert ParsePieces([]) == Some([]);
      if ParsePiece(tok).Some? { assert [ParsePiece(tok).value] + [] == [ParsePiece(tok).value]; }
    } else {
      assert pieces[0] == tok && pieces[1..] == Split(rest.value, ',');
    }
  }

  /** No part holds a comma and the name holds no slash; the data may. */
  predicate Clean(p: Pair) {
    ',' !in p.name && '/' !in p.name && ',' !in p.data
  }

  lemma {:induction false} CutAt(a: string, sep: char, b: string)
    requires sep !in a
    ensures Cut(a + [sep] + b, sep) == (a, Some(b))
  {
    var s := a + [sep] + b;
    if a == "" {
      assert s[0] == sep && s[1..] == b;
    } else {
      assert s[0] == a[0] && s[1..] == a[1..] + [sep] + b;
      CutAt(a[1..], sep, b);
      assert [a[0]] + a[1..] == a;
    }
  }

  lemma {:induction false} CutNone(a: string, sep: char)
    requires sep !in a
    ensures Cut(a, sep) == (a, None)
  {
    if a != "" {
      CutNone(a[1..], sep);
      assert [a[0]] + a[1..] == a;
    }
  }

  lemma {:induction false} TerminatedEnd(ps: seq<Pair>)
    ensures ps != [] ==> Terminated(ps) != "" && Terminated(ps) == Render(ps) + ","
    ensures |ps| > 1 ==> Render(ps) == PairText(ps[0]) + "," + Render(ps[1..])
    ensures |ps| == 1 ==> Render(ps) == PairText(ps[0])
  {
    if |ps| == 1 {
      assert Terminated(ps[1..]) == "";
      assert Terminated(ps) == PairText(ps[0]) + ",";
    } else if |ps| > 1 {
      TerminatedEnd(ps[1..]);
      assert Terminated(ps) == (PairText(ps[0]) + "," + Render(ps[1..])) + ",";
    }
  }

  lemma ParsePair(p: Pair)
    requires '/' !in p.name
    ensures ParsePiece(PairText(p)) == Some(p)
  {
    assert PairText(p) == p.name + ['/'] + p.data;
    CutAt(p.name, '/', p.data);
  }

  /** Clean pairs, at least one of them, come back as they were. */
  lemma {:induction false} ParseRender(ps: seq<Pair>)
    requires ps != [] && forall p :: p in ps ==> Clean(p)
    ensures Parse(Render(ps)) == Some(ps)
  {
    TerminatedEnd(ps);
    var first := PairText(ps[0]);
    assert Clean(ps[0]) && ',' !in first;
    ParsePair(ps[0]);
    ParseStep(Render(ps));
    if |ps| == 1 {
      CutNone(first, ',');
      assert ps == [ps[0]];
    } else {
      var rest := Render(ps[1..]);
      assert Render(ps) == first + [','] + rest;
      CutAt(first, ',', rest);
      ParseRender(ps[1..]);
      assert ps == [ps[0]] + ps[1..];
    }
  }

  /** Parsed pairs are always clean. */
  lemma {:induction false} ParsedAreClean(text: string)
    ensures Parse(text).Some? ==> Parse(text).value != [] && forall p :: p in Parse(text).value ==> Clean(p)
    decreases |text|
  {
    var (tok, rest) := Cut(text, ',');
    var p := ParsePiece(tok);
    if p.Some? {
      PieceIsClean(tok);
    }
    ParseStep(text);
    if rest.Some? {
      ParsedAreClean(rest.value);
    }
  }

  lemma PieceIsClean(tok: string)
    requires ',' !in tok && ParsePiece(tok).Some?
    ensures Clean(ParsePiece(tok).value)
  {
    var (name, data) := Cut(tok, '/');
    assert forall c :: c in name || c in data.value ==> c in tok;
  }

  /** Exactly which lists survive the round trip. */
  lemma RoundTripIff(ps: seq<Pair>)
    ensures Parse(Render(ps)) == Some(ps) <==> ps != [] && forall p :: p in ps ==> Clean(p)
  {
    if ps != [] && forall p :: p in ps ==> Clean(p) {
      ParseRender(ps);
    }
    ParsedAreClean(Render(ps));
  }

  /** In the other direction every text that parses is the text of its pairs: the form is unambiguous. */
  lemma {:induction false} RenderParse(text: string)
    requires Parse(text).Some?
    ensures Render(Parse(text).value) == text
    decreases |text|
  {
    var (tok, rest) := Cut(text, ',');
    var ps := Parse(text).value;
    ParseStep(text);
    PieceText(tok);
    TerminatedEnd(ps);
    if rest.Some? {
      RenderParse(rest.value);
      ParsedAreClean(rest.value);
      assert ps[1..] == Parse(rest.value).value;
      assert text == tok + "," + rest.value;
    }
  }

  lemma PieceText(tok: string)
    requires ParsePiece(tok).Some?
    ensures PairText(ParsePiece(tok).value) == tok
  {
  }

  lemma {:induction false} TerminatedConcat(a: seq<Pair>, b: seq<Pair>)
    ensures Terminated(a + b) == Terminated(a) + Terminated(b)
  {
    if a == [] {
      assert a + b == b;
    } else {
      assert (a + b)[1..] == a[1..] + b;
      TerminatedConcat(a[1..], b);
    }
  }
}
