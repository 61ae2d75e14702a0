/** The encoder's search and the decoder's copy, put together. */
module MatchRoundTrip {
  import opened Base
  import opened Lzss
  import opened LzssFormat
  import opened SearchTree
  import opened Descent
  import opened Decompress

  /**
   The decoder turns a match reported by insert_node back into the look-ahead bytes it stands for,
   also when the match runs into the look-ahead itself or around the end of the ring.
   */
  lemma {:induction false} ReportedMatchDecodes(k: Links, text: Text, r: nat, pos: int, len: int, h: History,
                             rest: seq<Byte>, c: Byte, t: nat)
    requires k.Sized() && IsNode(r) && IsLongestMatch(k, text, r, pos, len) && len > THRESHOLD
    requires Mirrored(text) && Behind(text, r, h)
    requires IsNode(pos) && Distance(|h|, pos) <= N - F
    requires t < 8 && !Bit(c, t)
    ensures Decode(Body(Match(pos, len)) + rest, c, t, h) == Decode(rest, c, t + 1, h + Window(text, r)[..len])
  {
    DecodeToken(Match(pos, len), rest, c, t, h);
    MatchDecodes(text, r, pos, len, h);
  }

  /** The same for a shorter prefix of the match, which a driver takes near the end of its input. */
  lemma {:induction false} ShortenedMatchDecodes(k: Links, text: Text, r: nat, pos: int, len: int, n: nat, h: History)
    requires k.Sized() && IsNode(r) && IsLongestMatch(k, text, r, pos, len) && THRESHOLD < n <= len
    requires Mirrored(text) && Behind(text, r, h)
    requires IsNode(pos) && Distance(|h|, pos) <= N - F
    ensures Encodable(Match(pos, n)) && Apply(Match(pos, n), h) == h + Window(text, r)[..n]
  {
    MatchDecodes(text, r, pos, n, h);
  }

  /** End to end: tokens that spell a text are serialised, decompressed, and give the text. */
  method DecompressSpelling(dst: array<Byte>, ts: seq<Token>, plain: seq<Byte>) returns (n: nat)
    requires forall tok :: tok in ts ==> Encodable(tok)
    requires forall unset :: |unset| == F ==> Spells(ts, Initial(StartRing(unset)), plain)
    requires 1 <= |plain| <= dst.Length
    modifies dst
    ensures n == |plain| && dst[..n] == plain && dst[n..] == old(dst[..])[n..]
  {
    ghost var unset;
    n, unset := DecompressLzss(dst, dst.Length, Serialize(ts));
    OutputOfSpelling(ts, plain, unset);
    assert dst[..n] == plain;
  }
}
