/**
 The LZSS byte format, described by history instead of by ring buffer: a match token names an absolute
 ring cell, and the byte it stands for is some distance 1..4096 back in what has been produced so far.
 The 4096 bytes the ring holds at the start count as history from before the first output byte.
 */
module LzssFormat {
  import opened Base
  import opened Lzss

  /** Everything the decoder can refer to: 4096 initial bytes, then the output. */
  type History = h: seq<Byte> | |h| >= N witness seq(N, _ => 0)

  /** The ring cell that holds history position j. */
  function Cell(j: nat): (c: nat)
    ensures c < N
  {
    (j + (N - F)) % N
  }

  /** How far back cell i lies when the history has length h: 1..4096. */
  function Distance(h: nat, i: nat): (d: nat)
    requires i < N
    ensures 1 <= d <= N
    ensures h >= N ==> Cell(h - d) == i
  {
    var d := (Cell(h) + N - i - 1) % N + 1;
    CellBack(h, i, d);
    d
  }

  lemma CellBack(h: nat, i: nat, d: nat)
    requires i < N && d == (Cell(h) + N - i - 1) % N + 1
    ensures 1 <= d <= N && (h >= N ==> Cell(h - d) == i)
  {
    if h >= N {
      var q := (h + (N - F)) / N;
      assert h + (N - F) == q * N + Cell(h);
      if Cell(h) > i {
        assert d == Cell(h) - i;
        ModIs(h - d + (N - F), q, i);
      } else {
        assert d == Cell(h) + N - i;
        ModIs(h - d + (N - F), q - 1, i);
      }
    }
  }

  lemma ModIs(x: nat, q: int, i: nat)
    requires i < N && x == q * N + i
    ensures x % N == i
  {
  }

  /** Two history positions less than 4096 apart share a cell only when they are the same. */
  lemma CellsDiffer(j: nat, j': nat)
    requires j < j' < j + N
    ensures Cell(j) != Cell(j')
  {
  }

  /** n bytes copied one at a time from d back, so a copy may run into its own output. */
  function Copy(h: History, d: nat, n: nat): (h': History)
    requires 1 <= d <= N
    ensures |h'| == |h| + n && h <= h'
    decreases n
  {
    if n == 0 then h else Copy(h + [h[|h| - d]], d, n - 1)
  }

  /** x shifted right t places. */
  function Shr(x: nat, t: nat): (y: nat) {
    if t == 0 then x else Shr(x / 2, t - 1)
  }

  predicate Bit(c: Byte, t: nat)
    requires t < 8
  {
    Shr(c, t) % 2 == 1
  }

  function Pow2(t: nat): (p: nat)
    requires t <= 8
    ensures p > 0
  {
    [1, 2, 4, 8, 16, 32, 64, 128, 256][t]
  }

  /** First and second byte of a match: twelve bits of position, four bits of length. */
  function MatchCell(b0: Byte, b1: Byte): (i: nat)
    ensures i < N
  {
    b0 + (b1 / 16) * 256
  }

  function MatchSize(b1: Byte): (n: nat)
    ensures THRESHOLD < n <= F
  {
    b1 % 16 + THRESHOLD + 1
  }

  /**
   The history after decoding `src`, when token t of the group governed by flag byte c comes next.
   A source that ends inside a token ends the output before that token.
   */
  function Decode(src: seq<Byte>, c: Byte, t: nat, h: History): (h': History)
    requires t <= 8
    ensures h <= h'
    decreases |src|, 8 - t
  {
    if t == 8 then
      if src == [] then h else Decode(src[1..], src[0], 0, h)
    else if Bit(c, t) then
      if src == [] then h else Decode(src[1..], c, t + 1, h + [src[0]])
    else if |src| < 2 then h
    else
      Decode(src[2..], c, t + 1, Copy(h, Distance(|h|, MatchCell(src[0], src[1])), MatchSize(src[1])))
  }

  /** The history at the start: the ring in the order of its cells, beginning with cell N - F. */
  function Initial(ring: seq<Byte>): History
    requires |ring| == N
  {
    ring[N - F..] + ring[..N - F]
  }

  /** Spaces, except for the 18 cells that the code never sets. */
  function StartRing(unset: seq<Byte>): (ring: seq<Byte>)
    requires |unset| == F
    ensures |ring| == N
  {
    seq(N - F, _ => 32 as Byte) + unset
  }

  /** The complete output of a source, with no limit on its length. */
  function Output(src: seq<Byte>, unset: seq<Byte>): seq<Byte>
    requires |unset| == F
  {
    Decode(src, 0, 8, Initial(StartRing(unset)))[N..]
  }

  lemma TailOfPrefix(src: seq<Byte>, n: nat, m: nat)
    requires m <= n <= |src|
    ensures src[..n][m..] == src[m..][..n - m]
  {
  }

  /** The first n bytes of the source decode to the beginning of what all of it decodes to. */
  predicate PrefixAt(src: seq<Byte>, n: nat, c: Byte, t: nat, h: History)
    requires t <= 8 && n <= |src|
  {
    Decode(src[..n], c, t, h) <= Decode(src, c, t, h)
  }

  lemma {:induction false} PrefixStops(src: seq<Byte>, n: nat, c: Byte, t: nat, h: History)
    requires t <= 8 && n <= |src| && (n == 0 || (n == 1 && t < 8 && !Bit(c, t)))
    ensures PrefixAt(src, n, c, t, h)
  {
  }

  lemma {:induction false} PrefixFlags(src: seq<Byte>, n: nat, c: Byte, h: History)
    requires 0 < n <= |src| && PrefixAt(src[1..], n - 1, src[0], 0, h)
    ensures PrefixAt(src, n, c, 8, h)
  {
    TailOfPrefix(src, n, 1);
  }

  lemma {:induction false} PrefixLiteral(src: seq<Byte>, n: nat, c: Byte, t: nat, h: History)
    requires t < 8 && Bit(c, t) && 0 < n <= |src| && PrefixAt(src[1..], n - 1, c, t + 1, h + [src[0]])
    ensures PrefixAt(src, n, c, t, h)
  {
    TailOfPrefix(src, n, 1);
  }

  lemma {:induction false} PrefixMatch(src: seq<Byte>, n: nat, c: Byte, t: nat, h: History)
    requires t < 8 && !Bit(c, t) && 2 <= n <= |src|
    requires PrefixAt(src[2..], n - 2, c, t + 1,
                      Copy(h, Distance(|h|, MatchCell(src[0], src[1])), MatchSize(src[1])))
    ensures PrefixAt(src, n, c, t, h)
  {
    TailOfPrefix(src, n, 2);
  }

  /** Cutting the source anywhere, even inside a token, cuts the output to a prefix. */
  lemma {:induction false} DecodePrefix(src: seq<Byte>, n: nat, c: Byte, t: nat, h: History)
    requires t <= 8 && n <= |src|
    ensures PrefixAt(src, n, c, t, h)
    decreases |src|, 8 - t
  {
    if n == 0 || (n == 1 && t < 8 && !Bit(c, t)) {
      PrefixStops(src, n, c, t, h);
    } else if t == 8 {
      DecodePrefix(src[1..], n - 1, src[0], 0, h);
      PrefixFlags(src, n, c, h);
    } else if Bit(c, t) {
      DecodePrefix(src[1..], n - 1, c, t + 1, h + [src[0]]);
      PrefixLiteral(src, n, c, t, h);
    } else {
      DecodePrefix(src[2..], n - 2, c, t + 1, Copy(h, Distance(|h|, MatchCell(src[0], src[1])), MatchSize(src[1])));
      PrefixMatch(src, n, c, t, h);
    }
  }

  lemma TruncatedSource(src: seq<Byte>, n: nat, unset: seq<Byte>)
    requires n <= |src| && |unset| == F
    ensures Output(src[..n], unset) <= Output(src, unset)
  {
    DecodePrefix(src, n, 0, 8, Initial(StartRing(unset)));
  }

  datatype Token = Literal(c: Byte) | Match(cell: nat, size: nat)

  predicate Encodable(tok: Token) {
    tok.Match? ==> tok.cell < N && THRESHOLD < tok.size <= F
  }

  /** The bytes of one token. */
  function Body(tok: Token): (s: seq<Byte>)
    requires Encodable(tok)
  {
    match tok
    case Literal(c) => [c]
    case Match(i, n) => [i % 256, (i / 256) * 16 + (n - THRESHOLD - 1)]
  }

  lemma UnpackBody(tok: Token)
    requires tok.Match? && Encodable(tok)
    ensures MatchCell(Body(tok)[0], Body(tok)[1]) == tok.cell && MatchSize(Body(tok)[1]) == tok.size
  {
    var hi, lo := tok.cell / 256, tok.size - THRESHOLD - 1;
    assert ((hi * 16 + lo) / 16) == hi && (hi * 16 + lo) % 16 == lo;
  }

  function Bodies(ts: seq<Token>): seq<Byte>
    requires forall tok :: tok in ts ==> Encodable(tok)
  {
    if ts == [] then [] else Body(ts[0]) + Bodies(ts[1..])
  }

  /** Bit t of the flag byte says whether token t of the group is a literal. */
  function FlagByte(ts: seq<Token>): (c: nat)
    requires |ts| <= 8
    ensures c < Pow2(|ts|) <= 256
  {
    if ts == [] then 0
    else (if ts[0].Literal? then 1 else 0) + 2 * FlagByte(ts[1..])
  }

  lemma {:induction false} FlagBit(ts: seq<Token>, t: nat)
    requires t < |ts| <= 8
    ensures Bit(FlagByte(ts), t) == ts[t].Literal?
  {
    if t > 0 {
      assert FlagByte(ts) / 2 == FlagByte(ts[1..]);
      FlagBit(ts[1..], t - 1);
    }
  }

  /** Groups of eight tokens, each led by its flag byte. */
  function Serialize(ts: seq<Token>): seq<Byte>
    requires forall tok :: tok in ts ==> Encodable(tok)
    decreases |ts|
  {
    if ts == [] then []
    else if |ts| <= 8 then [FlagByte(ts)] + Bodies(ts)
    else [FlagByte(ts[..8])] + Bodies(ts[..8]) + Serialize(ts[8..])
  }

  /** What the tokens mean. */
  function Replay(ts: seq<Token>, h: History): History
    requires forall tok :: tok in ts ==> Encodable(tok)
    decreases |ts|
  {
    if ts == [] then h
    else Replay(ts[1..], Apply(ts[0], h))
  }

  function Apply(tok: Token, h: History): (h': History)
    requires Encodable(tok)
    ensures h < h'
  {
    match tok
    case Literal(c) => h + [c]
    case Match(i, n) => Copy(h, Distance(|h|, i), n)
  }

  lemma {:induction false} BodiesSplit(a: seq<Token>, b: seq<Token>)
    requires forall tok :: tok in a + b ==> Encodable(tok)
    ensures Bodies(a + b) == Bodies(a) + Bodies(b)
  {
    if a == [] {
      assert a + b == b;
    } else {
      assert (a + b)[1..] == a[1..] + b;
      BodiesSplit(a[1..], b);
    }
  }

  /** One group: token t.. of `group` are decoded in order, lowest flag bit first. */
  lemma {:induction false} DecodeGroup(group: seq<Token>, t: nat, tail: seq<Byte>, h: History)
    requires t <= |group| <= 8
    requires forall tok :: tok in group ==> Encodable(tok)
    requires |group| == 8 || tail == []
    ensures Decode(Bodies(group[t..]) + tail, FlagByte(group), t, h)
         == (if |group| == 8 then Decode(tail, FlagByte(group), 8, Replay(group[t..], h)) else Replay(group[t..], h))
    decreases |group| - t
  {
    if t == |group| {
      assert group[t..] == [];
      assert Bodies([]) + tail == tail;
    } else {
      var tok, rest := group[t], Bodies(group[t + 1..]) + tail;
      assert group[t..][0] == tok && group[t..][1..] == group[t + 1..];
      FlagBit(group, t);
      var src := Bodies(group[t..]) + tail;
      assert src == Body(tok) + rest;
      assert Encodable(tok);
      DecodeToken(tok, rest, FlagByte(group), t, h);
      DecodeGroup(group, t + 1, tail, Apply(tok, h));
    }
  }

  lemma {:induction false} DecodeToken(tok: Token, rest: seq<Byte>, c: Byte, t: nat, h: History)
    requires t < 8 && Encodable(tok) && Bit(c, t) == tok.Literal?
    ensures Decode(Body(tok) + rest, c, t, h) == Decode(rest, c, t + 1, Apply(tok, h))
  {
    var src := Body(tok) + rest;
    match tok
    case Literal(x) =>
      assert src[0] == x && src[1..] == rest;
    case Match(i, n) =>
      UnpackBody(tok);
      assert src[0] == Body(tok)[0] && src[1] == Body(tok)[1] && src[2..] == rest;
  }

  lemma {:induction false} ReplaySplit(a: seq<Token>, b: seq<Token>, h: History)
    requires forall tok :: tok in a + b ==> Encodable(tok)
    ensures Replay(a + b, h) == Replay(b, Replay(a, h))
    decreases |a|
  {
    if a == [] {
      assert a + b == b;
    } else {
      assert a[0] in a + b;
      assert (a + b)[1..] == a[1..] + b;
      ReplaySplit(a[1..], b, Apply(a[0], h));
    }
  }

  lemma {:induction false} DecodeFirstGroup(ts: seq<Token>, group: seq<Token>, tail: seq<Byte>, c: Byte, h: History)
    requires forall tok :: tok in ts ==> Encodable(tok)
    requires 0 < |group| <= 8 && group <= ts && (|group| == 8 || tail == [])
    requires Serialize(ts) == [FlagByte(group) as Byte] + (Bodies(group) + tail)
    ensures Decode(Serialize(ts), c, 8, h)
         == (if |group| == 8 then Decode(tail, FlagByte(group), 8, Replay(group, h)) else Replay(group, h))
  {
    assert Serialize(ts)[0] == FlagByte(group) && Serialize(ts)[1..] == Bodies(group) + tail;
    assert group[0..] == group;
    DecodeGroup(group, 0, tail, h);
  }

  /** Decoding undoes serialising, for every token sequence and every history. */
  lemma {:induction false} DecodeSerialize(ts: seq<Token>, c: Byte, h: History)
    requires forall tok :: tok in ts ==> Encodable(tok)
    ensures Decode(Serialize(ts), c, 8, h) == Replay(ts, h)
    decreases |ts|
  {
    if ts != [] {
      if |ts| <= 8 {
        DecodeShort(ts, c, h);
      } else {
        var group, rest := ts[..8], ts[8..];
        assert ts == group + rest;
        DecodeSerialize(rest, FlagByte(group), Replay(group, h));
        DecodeLong(group, rest, c, h);
      }
    }
  }

  lemma {:induction false} DecodeShort(ts: seq<Token>, c: Byte, h: History)
    requires 0 < |ts| <= 8 && forall tok :: tok in ts ==> Encodable(tok)
    ensures Decode(Serialize(ts), c, 8, h) == Replay(ts, h)
  {
    assert Serialize(ts) == [FlagByte(ts) as Byte] + (Bodies(ts) + []);
    DecodeFirstGroup(ts, ts, [], c, h);
  }

  lemma SerializeLong(group: seq<Token>, rest: seq<Token>)
    requires |group| == 8 && rest != [] && forall tok :: tok in group + rest ==> Encodable(tok)
    ensures Serialize(group + rest) == [FlagByte(group) as Byte] + (Bodies(group) + Serialize(rest))
  {
    var ts := group + rest;
    assert ts[..8] == group && ts[8..] == rest;
  }

  /** More than one group, the later ones of which decode to what they mean. */
  lemma {:induction false} DecodeLong(group: seq<Token>, rest: seq<Token>, c: Byte, h: History)
    requires |group| == 8 && rest != [] && forall tok :: tok in group + rest ==> Encodable(tok)
    requires Decode(Serialize(rest), FlagByte(group), 8, Replay(group, h)) == Replay(rest, Replay(group, h))
    ensures Decode(Serialize(group + rest), c, 8, h) == Replay(group + rest, h)
  {
    SerializeLong(group, rest);
    DecodeFirstGroup(group + rest, group, Serialize(rest), c, h);
    ReplaySplit(group, rest, h);
  }

  /** The tokens spell out `plain`: each literal is the next byte, each match copies the next bytes. */
  predicate Spells(ts: seq<Token>, h: History, plain: seq<Byte>)
    requires forall tok :: tok in ts ==> Encodable(tok)
    decreases |ts|
  {
    if ts == [] then plain == []
    else
      var h' := Apply(ts[0], h);
      |h'| - |h| <= |plain| && h' == h + plain[..|h'| - |h|] && Spells(ts[1..], h', plain[|h'| - |h|..])
  }

  predicate Spelling(ts: seq<Token>, h: History, plain: seq<Byte>) {
    (forall tok :: tok in ts ==> Encodable(tok)) && Spells(ts, h, plain)
  }

  lemma {:induction false} SpellingStep(ts: seq<Token>, h: History, plain: seq<Byte>) returns (rest: seq<Byte>)
    requires ts != [] && Spelling(ts, h, plain)
    ensures Encodable(ts[0]) && Spelling(ts[1..], Apply(ts[0], h), rest)
    ensures Apply(ts[0], h) + rest == h + plain
  {
    var h' := Apply(ts[0], h);
    var n := |h'| - |h|;
    rest := plain[n..];
    Rejoin(h, plain, n);
  }

  lemma Rejoin(h: seq<Byte>, plain: seq<Byte>, n: nat)
    requires n <= |plain|
    ensures (h + plain[..n]) + plain[n..] == h + plain
  {
  }

  lemma {:induction false} ReplaySpells(ts: seq<Token>, h: History, plain: seq<Byte>)
    requires Spelling(ts, h, plain)
    ensures Replay(ts, h) == h + plain
    decreases |ts|
  {
    if ts != [] {
      var rest := SpellingStep(ts, h, plain);
      ReplaySpells(ts[1..], Apply(ts[0], h), rest);
    }
  }

  /** A text cut into tokens that spell it is recovered by the decoder, whatever the unset cells hold. */
  lemma OutputOfSpelling(ts: seq<Token>, plain: seq<Byte>, unset: seq<Byte>)
    requires |unset| == F
    requires forall tok :: tok in ts ==> Encodable(tok)
    requires Spells(ts, Initial(StartRing(unset)), plain)
    ensures Output(Serialize(ts), unset) == plain
  {
    DecodeSerialize(ts, 0, Initial(StartRing(unset)));
    ReplaySpells(ts, Initial(StartRing(unset)), plain);
  }

  /** The F - 1 bytes after the ring repeat its beginning. */
  predicate Mirrored(text: Text) {
    forall j :: 0 <= j < F - 1 ==> text[N + j] == text[j]
  }

  /** The encoder stands at ring cell r with history h behind it, as far back as N - F. */
  predicate Behind(text: Text, r: nat, h: History) {
    && r == Cell(|h|)
    && forall j :: |h| - (N - F) <= j < |h| ==> text[Cell(j)] == h[j]
  }

  /** Each byte of a window, wherever in the ring it lies. */
  lemma WindowByte(text: Text, a: nat, j: nat)
    requires a < N && j < F && Mirrored(text)
    ensures Window(text, a)[j] == text[(a + j) % N]
  {
    if a + j >= N {
      assert text[N + (a + j - N)] == text[a + j - N];
    }
  }

  /** Copy step j reads the look-ahead byte it must produce, from the old history ... */
  lemma {:induction false} CopyOldByte(text: Text, r: nat, p: nat, h0: History, j: nat)
    requires Mirrored(text) && Behind(text, r, h0) && p < N && j < F
    requires j < Distance(|h0|, p) <= N - F
    ensures h0[|h0| + j - Distance(|h0|, p)] == Window(text, p)[j]
  {
    var at := |h0| + j - Distance(|h0|, p);
    WindowByte(text, p, j);
    CellAdd(|h0| - Distance(|h0|, p), p, j);
    assert text[Cell(at)] == h0[at];
  }

  /** ... or from what this same copy has already written. */
  lemma {:induction false} CopyNewByte(text: Text, r: nat, p: nat, h0: History, j: nat)
    requires Mirrored(text) && Behind(text, r, h0) && p < N && j < F
    requires Distance(|h0|, p) <= j
    ensures Window(text, r)[j - Distance(|h0|, p)] == Window(text, p)[j]
  {
    var d := Distance(|h0|, p);
    WindowByte(text, p, j);
    WindowByte(text, r, j - d);
    CellAdd(|h0| - d, p, j);
    CellAdd(|h0|, r, j - d);
  }

  lemma CellAdd(h: nat, c: nat, j: nat)
    requires c == Cell(h)
    ensures Cell(h + j) == (c + j) % N
  {
    var q := (h + (N - F)) / N;
    assert h + j + (N - F) == q * N + (c + j);
    ModAdd(q, c + j);
  }

  lemma ModAdd(q: nat, x: nat)
    ensures (q * N + x) % N == x % N
  {
    ModIs(q * N + x, q + x / N, x % N);
  }

  /** Byte j of w is the byte d places before it, in h or in w itself. */
  predicate RepeatsAt(h: History, d: nat, w: seq<Byte>, j: nat)
    requires 1 <= d <= N && j < |w|
  {
    w[j] == (if j < d then h[|h| + j - d] else w[j - d])
  }

  predicate Periodic(h: History, d: nat, w: seq<Byte>)
    requires 1 <= d <= N
  {
    forall j :: 0 <= j < |w| ==> RepeatsAt(h, d, w, j)
  }

  lemma {:induction false} CopyPeriodic(h: History, d: nat, w: seq<Byte>)
    requires 1 <= d <= N && Periodic(h, d, w)
    ensures Copy(h, d, |w|) == h + w
    decreases |w|
  {
    if w == [] {
      assert h + w == h;
    } else {
      var h' := h + [w[0]];
      assert RepeatsAt(h, d, w, 0);
      PeriodicTail(h, d, w);
      CopyPeriodic(h', d, w[1..]);
      assert h' + w[1..] == h + w;
    }
  }

  lemma {:induction false} PeriodicTail(h: History, d: nat, w: seq<Byte>)
    requires 1 <= d <= N && w != [] && Periodic(h, d, w)
    ensures Periodic(h + [w[0]], d, w[1..])
  {
    var h', w' := h + [w[0]], w[1..];
    forall j | 0 <= j < |w'| ensures RepeatsAt(h', d, w', j) {
      assert RepeatsAt(h, d, w, j + 1);
    }
  }

  /** A reported match decodes to exactly the look-ahead bytes it stands for. */
  lemma {:induction false} MatchDecodes(text: Text, r: nat, p: nat, n: nat, h: History)
    requires Mirrored(text) && Behind(text, r, h) && p < N
    requires Distance(|h|, p) <= N - F
    requires n <= Lcp(Window(text, r), Window(text, p))
    ensures Copy(h, Distance(|h|, p), n) == h + Window(text, r)[..n]
  {
    var d, w := Distance(|h|, p), Window(text, r)[..n];
    forall j | 0 <= j < n ensures RepeatsAt(h, d, w, j) {
      MatchRepeats(text, r, p, n, h, j);
    }
    CopyPeriodic(h, d, w);
  }

  lemma {:induction false} MatchRepeats(text: Text, r: nat, p: nat, n: nat, h: History, j: nat)
    requires Mirrored(text) && Behind(text, r, h) && p < N
    requires Distance(|h|, p) <= N - F
    requires j < n <= Lcp(Window(text, r), Window(text, p))
    ensures RepeatsAt(h, Distance(|h|, p), Window(text, r)[..n], j)
  {
    assert Window(text, r)[j] == Window(text, p)[j];
    if j < Distance(|h|, p) {
      CopyOldByte(text, r, p, h, j);
    } else {
      CopyNewByte(text, r, p, h, j);
    }
  }

  // ---- the first bytes of a source

  /** Eight set flag bits: the bytes that follow stand for themselves, one for each bit. */
  lemma {:induction false} LiteralsStand(bytes: seq<Byte>, unset: seq<Byte>)
    requires |bytes| <= 8 && |unset| == F
    ensures Output([255 as Byte] + bytes, unset) == bytes
  {
    var h := Initial(StartRing(unset));
    var src := [255 as Byte] + bytes;
    assert src[0] == 255 && src[1..] == bytes;
    LiteralsFrom(bytes, 0, h);
  }

  lemma {:induction false} LiteralsFrom(bytes: seq<Byte>, t: nat, h: History)
    requires t + |bytes| <= 8
    ensures Decode(bytes, 255, t, h) == h + bytes
    decreases |bytes|
  {
    if bytes != [] {
      AllBits(t);
      LiteralsFrom(bytes[1..], t + 1, h + [bytes[0]]);
      assert (h + [bytes[0]]) + bytes[1..] == h + bytes;
    } else {
      assert h + bytes == h;
    }
  }

  lemma AllBits(t: nat)
    requires t < 8
    ensures Bit(255, t)
  {
    assert Shr(255, 0) == 255 && Shr(127, 0) == 127 && Shr(63, 0) == 63 && Shr(31, 0) == 31;
    if t >= 1 { assert Shr(255, t) == Shr(127, t - 1); }
    if t >= 2 { assert Shr(127, t - 1) == Shr(63, t - 2); }
    if t >= 3 { assert Shr(63, t - 2) == Shr(31, t - 3); }
    if t >= 4 { assert Shr(31, t - 3) == Shr(15, t - 4); }
    if t >= 5 { assert Shr(15, t - 4) == Shr(7, t - 5); }
    if t >= 6 { assert Shr(7, t - 5) == Shr(3, t - 6); }
    if t >= 7 { assert Shr(3, t - 6) == Shr(1, t - 7); }
  }

  /** A lone match whose cell, eight bits of the first byte below four of the second, holds a space: the low four bits
      of the second byte, and three more, are the number of spaces put out. */
  lemma SpacesFirst(c: Byte, b0: Byte, b1: Byte, unset: seq<Byte>)
    requires c % 2 == 0 && b0 + 256 * (b1 / 16) < 4078 && |unset| == F
    ensures Output([c, b0, b1], unset) == seq(b1 % 16 + 3, _ => 32 as Byte)
  {
    var h := Initial(StartRing(unset));
    var i, n := b0 + 256 * (b1 / 16), b1 % 16 + 3;
    SpaceDistance(i);
    SpacesBehind(unset);
    CopySpaces(h, N - (i + F), n);
    LoneMatch(c, b0, b1, h);
    BehindStart(h, seq(n, _ => 32 as Byte));
  }

  /** At the start the history is spaces, except for its first 18 bytes. */
  lemma SpacesBehind(unset: seq<Byte>)
    requires |unset| == F
    ensures |Initial(StartRing(unset))| == N
    ensures forall j :: F <= j < N ==> Initial(StartRing(unset))[j] == 32
  {
  }

  lemma BehindStart(h: seq<Byte>, out: seq<Byte>)
    requires |h| == N
    ensures (h + out)[N..] == out
  {
  }

  lemma SpaceDistance(i: nat)
    requires i < N - F
    ensures Distance(N, i) == N - (i + F)
  {
    assert Cell(N) == N - F;
  }

  lemma {:induction false} LoneMatch(c: Byte, b0: Byte, b1: Byte, h: History)
    requires c % 2 == 0
    ensures Decode([c, b0, b1], 0, 8, h)
         == Copy(h, Distance(|h|, b0 + 256 * (b1 / 16)), b1 % 16 + 3)
  {
    var src := [c, b0, b1];
    assert src[1..] == [b0, b1] && [b0, b1][2..] == [];
    assert Shr(c, 0) == c && !Bit(c, 0);
    var g := Copy(h, Distance(|h|, MatchCell(b0, b1)), MatchSize(b1));
    assert Decode([], c, 1, g) == g;
    assert Decode([b0, b1], c, 0, h) == g;
  }

  lemma {:induction false} CopySpaces(h: History, d: nat, n: nat)
    requires 1 <= d <= N && forall j :: |h| - d <= j < |h| ==> h[j] == 32
    ensures Copy(h, d, n) == h + seq(n, _ => 32 as Byte)
    decreases n
  {
    if n == 0 {
      assert h + [] == h;
    } else {
      CopySpaces(h + [32], d, n - 1);
      OneMore(h, 32, n, n - 1);
    }
  }

  lemma OneMore(h: seq<Byte>, x: Byte, n: nat, m: nat)
    requires n == m + 1
    ensures (h + [x]) + seq(m, _ => x) == h + seq(n, _ => x)
  {
  }

  /** A literal and a match of the cell it went to, the first one to be written: the byte is repeated. */
  lemma RepeatedByte(x: Byte, n: nat, unset: seq<Byte>)
    requires 3 <= n <= 18 && |unset| == F
    ensures Output([1 as Byte, x, 0xee, 0xf0 + (n - 3)], unset) == seq(n + 1, _ => x)
  {
    var h := Initial(StartRing(unset));
    var b1 := 0xf0 + (n - 3);
    var src := [1 as Byte, x, 0xee, b1];
    assert src[1..] == [x, 0xee, b1] && [x, 0xee, b1][1..] == [0xee, b1] && [0xee, b1][2..] == [];
    assert Shr(1, 0) == 1 && Shr(1, 1) == Shr(0, 0) && Shr(0, 0) == 0 && Bit(1, 0) && !Bit(1, 1);
    var g := h + [x];
    assert MatchCell(0xee, b1) == 4078 && MatchSize(b1) == n;
    assert Cell(N + 1) == 4079 && Distance(N + 1, 4078) == 1;
    CopyLast(g, n);
    assert Decode([], 1, 2, Copy(g, 1, n)) == Copy(g, 1, n);
    assert Decode([0xee, b1], 1, 1, g) == Copy(g, 1, n);
    assert Decode([x, 0xee, b1], 1, 0, h) == Copy(g, 1, n);
    assert g + seq(n, _ => x) == h + seq(n + 1, _ => x);
  }

  lemma {:induction false} CopyLast(h: History, n: nat)
    ensures Copy(h, 1, n) == h + seq(n, _ => h[|h| - 1])
    decreases n
  {
    if n == 0 {
      assert h + [] == h;
    } else {
      var g := h + [h[|h| - 1]];
      CopyLast(g, n - 1);
      OneMore(h, h[|h| - 1], n, n - 1);
    }
  }
}
