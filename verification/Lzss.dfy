/** Constants and byte-level vocabulary shared by the LZSS encoder state and the decoder. */
module Lzss {
  import opened Base

  /** Size of the ring buffer. */
  const N := 4096

  /** Upper limit for a match length. */
  const F := 18

  /** A match is worth encoding only when it is longer than this. */
  const THRESHOLD := 2

  /** Index meaning "no node". */
  const NIL := N

  /** The ring with F - 1 extra bytes, so that every window of length F is contiguous. */
  type Text = s: seq<Byte> | |s| == N + F - 1 witness seq(N + F - 1, _ => 0)

  type Key = s: seq<Byte> | |s| == F witness seq(F, _ => 0)

  /** The string a tree node stands for: the window of length F that starts at its index. */
  function Window(text: Text, a: nat): Key
    requires a < N
  {
    text[a..a + F]
  }

  function LcpFrom(u: Key, v: Key, i: nat): (n: nat)
    requires i <= F
    ensures i <= n <= F
    ensures forall k :: i <= k < n ==> u[k] == v[k]
    ensures n < F ==> u[n] != v[n]
    decreases F - i
  {
    if i == F || u[i] != v[i] then i else LcpFrom(u, v, i + 1)
  }

  /** Length of the longest common prefix of two keys. */
  function Lcp(u: Key, v: Key): (n: nat)
    ensures n <= F
    ensures forall k :: 0 <= k < n ==> u[k] == v[k]
    ensures n < F ==> u[n] != v[n]
  {
    LcpFrom(u, v, 0)
  }

  /** Strict lexicographic order of two keys. */
  predicate Less(u: Key, v: Key) {
    var n := Lcp(u, v);
    n < F && u[n] < v[n]
  }

  /** A position that bounds the agreement from both sides is the common prefix length. */
  lemma LcpIs(u: Key, v: Key, n: nat)
    requires n <= F
    requires forall k :: 0 <= k < n ==> u[k] == v[k]
    requires n < F ==> u[n] != v[n]
    ensures Lcp(u, v) == n
  {
  }

  lemma LcpSymmetric(u: Key, v: Key)
    ensures Lcp(u, v) == Lcp(v, u)
    ensures Lcp(u, v) == F <==> u == v
  {
    LcpIs(v, u, Lcp(u, v));
  }

  /** In a sorted triple the outer pair never shares more than either inner pair does. */
  lemma LcpBetween(u: Key, v: Key, w: Key)
    requires Less(u, v) && Less(v, w)
    ensures Less(u, w)
    ensures Lcp(u, w) <= Lcp(u, v)
    ensures Lcp(u, w) <= Lcp(v, w)
  {
    var m, n := Lcp(u, v), Lcp(v, w);
    LcpIs(u, w, if m <= n then m else n);
  }
}
