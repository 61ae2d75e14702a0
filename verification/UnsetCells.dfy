/** When the ring cells that the decoder never initialises show in its output. */
module UnsetCells {
  import opened Base
  import opened Lzss
  import opened LzssFormat

  /**
   No match of the source starts to copy at one of the uninitialised cells while that cell still holds what it held
   at the start.  In terms of the history, whose first F bytes these cells are, only lengths matter.
   */
  predicate Avoids(src: seq<Byte>, c: Byte, t: nat, n: nat)
    requires t <= 8 && n >= N
    decreases |src|, 8 - t
  {
    if t == 8 then src == [] || Avoids(src[1..], src[0], 0, n)
    else if Bit(c, t) then src == [] || Avoids(src[1..], c, t + 1, n + 1)
    else
      |src| < 2
      || (n - Distance(n, MatchCell(src[0], src[1])) >= F && Avoids(src[2..], c, t + 1, n + MatchSize(src[1])))
  }

  /** The histories are the same but for the bytes of the uninitialised cells. */
  predicate Agree(g: History, h: History) {
    |g| == |h| && forall j :: F <= j < |g| ==> g[j] == h[j]
  }

  lemma {:induction false} CopyAgrees(g: History, h: History, d: nat, n: nat)
    requires Agree(g, h) && 1 <= d <= N && |g| - d >= F
    ensures Agree(Copy(g, d, n), Copy(h, d, n))
    decreases n
  {
    if n > 0 {
      CopyAgrees(g + [g[|g| - d]], h + [h[|h| - d]], d, n - 1);
    }
  }

  lemma {:induction false} DecodeAgrees(src: seq<Byte>, c: Byte, t: nat, g: History, h: History)
    requires t <= 8 && Agree(g, h) && Avoids(src, c, t, |g|)
    ensures Agree(Decode(src, c, t, g), Decode(src, c, t, h))
    decreases |src|, 8 - t
  {
    if t == 8 {
      if src != [] {
        DecodeAgrees(src[1..], src[0], 0, g, h);
      }
    } else if Bit(c, t) {
      if src != [] {
        DecodeAgrees(src[1..], c, t + 1, g + [src[0]], h + [src[0]]);
      }
    } else if |src| >= 2 {
      var d, n := Distance(|g|, MatchCell(src[0], src[1])), MatchSize(src[1]);
      CopyAgrees(g, h, d, n);
      DecodeAgrees(src[2..], c, t + 1, Copy(g, d, n), Copy(h, d, n));
    }
  }

  /** The histories differ at p, where both have output. */
  predicate DifferAt(g: History, h: History, p: nat) {
    N <= p < |g| && p < |h| && g[p] != h[p]
  }

  /** The histories differ in every uninitialised cell, and nowhere else. */
  predicate Opposed(g: History, h: History) {
    Agree(g, h) && forall j :: 0 <= j < F ==> g[j] != h[j]
  }

  lemma {:induction false} CopyOpposed(g: History, h: History, d: nat, n: nat)
    requires Opposed(g, h) && 1 <= d <= N && |g| - d >= F
    ensures Opposed(Copy(g, d, n), Copy(h, d, n))
  {
    CopyAgrees(g, h, d, n);
    assert forall j :: 0 <= j < F ==> Copy(g, d, n)[j] == g[j] && Copy(h, d, n)[j] == h[j];
  }

  /** Histories that differ in every uninitialised cell come to differ in the output when the source does not avoid
      these cells. */
  lemma {:induction false} DecodeDiffers(src: seq<Byte>, c: Byte, t: nat, g: History, h: History) returns (p: nat)
    requires t <= 8 && Opposed(g, h) && !Avoids(src, c, t, |g|)
    ensures DifferAt(Decode(src, c, t, g), Decode(src, c, t, h), p)
    decreases |src|, 8 - t
  {
    if t == 8 {
      p := DecodeDiffers(src[1..], src[0], 0, g, h);
    } else if Bit(c, t) {
      p := DecodeDiffers(src[1..], c, t + 1, g + [src[0]], h + [src[0]]);
    } else {
      var d, n := Distance(|g|, MatchCell(src[0], src[1])), MatchSize(src[1]);
      if |g| - d >= F {
        CopyOpposed(g, h, d, n);
        p := DecodeDiffers(src[2..], c, t + 1, Copy(g, d, n), Copy(h, d, n));
      } else {
        p := |g|;
        CopyShows(g, d, n);
        CopyShows(h, d, n);
        assert Copy(g, d, n) <= Decode(src, c, t, g) && Copy(h, d, n) <= Decode(src, c, t, h);
      }
    }
  }

  /** The first byte of a copy is the one it starts from. */
  lemma {:induction false} CopyShows(h: History, d: nat, n: nat)
    requires 1 <= d <= N && n > 0
    ensures |Copy(h, d, n)| > |h| && Copy(h, d, n)[|h|] == h[|h| - d]
  {
    assert h + [h[|h| - d]] <= Copy(h, d, n);
  }

  /** The output is the same whatever the uninitialised cells hold, exactly if the source avoids them. */
  lemma IndependentOfUnsetIff(src: seq<Byte>)
    ensures (forall u: seq<Byte>, v: seq<Byte> :: |u| == |v| == F ==> Output(src, u) == Output(src, v))
      <==> Avoids(src, 0, 8, N)
  {
    if Avoids(src, 0, 8, N) {
      forall u: seq<Byte>, v: seq<Byte> | |u| == |v| == F
        ensures Output(src, u) == Output(src, v)
      {
        DecodeAgrees(src, 0, 8, Initial(StartRing(u)), Initial(StartRing(v)));
      }
    } else {
      var u: seq<Byte>, v: seq<Byte> := seq(F, _ => 0), seq(F, _ => 1);
      var g, h := Initial(StartRing(u)), Initial(StartRing(v));
      var p := DecodeDiffers(src, 0, 8, g, h);
      assert Output(src, u)[p - N] == Decode(src, 0, 8, g)[p];
      assert Output(src, v)[p - N] == Decode(src, 0, 8, h)[p];
    }
  }
}
