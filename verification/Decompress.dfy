/** The ring-buffer decoder, proved to compute the history-based meaning of its source. */
module Decompress {
  import opened Base
  import opened Lzss
  import opened LzssFormat

  /** The ring holds the last 4096 bytes of the history. */
  predicate RingHolds(ring: seq<Byte>, h: History)
    requires |ring| == N + F - 1
  {
    forall j :: |h| - N <= j < |h| ==> ring[Cell(j)] == h[j]
  }

  lemma {:induction false} RingStore(ring: seq<Byte>, h: History, c: Byte)
    requires |ring| == N + F - 1 && RingHolds(ring, h)
    ensures RingHolds(ring[Cell(|h|) := c], h + [c])
  {
    forall j | |h| + 1 - N <= j < |h| + 1 ensures ring[Cell(|h|) := c][Cell(j)] == (h + [c])[j] {
      if j < |h| {
        CellsDiffer(j, |h|);
      }
    }
  }

  /** What the caller can see of the decoder's progress. */
  ghost predicate Written(dst: seq<Byte>, dst0: seq<Byte>, n: nat, h: History) {
    && n == |h| - N <= |dst| == |dst0|
    && dst == h[N..] + dst0[n..]
  }

  lemma {:induction false} WrittenOne(dst: seq<Byte>, dst0: seq<Byte>, n: nat, h: History, c: Byte)
    requires Written(dst, dst0, n, h) && n < |dst|
    ensures Written(dst[n := c], dst0, n + 1, h + [c])
  {
    assert (h + [c])[N..] == h[N..] + [c];
    assert dst[n := c] == h[N..] + [c] + dst0[n + 1..];
  }

  /** Lines 144-149 and 157-162: one byte goes out, and unless the output is full, into the ring. */
  method Put(dst: array<Byte>, dstlen: nat, textBuf: array<Byte>, n: nat, r: nat, c: Byte,
             ghost dst0: seq<Byte>, ghost h: History)
    returns (n': nat, r': nat, full: bool)
    requires dst != textBuf && textBuf.Length == N + F - 1 && n < dstlen <= dst.Length
    requires r == Cell(|h|) && RingHolds(textBuf[..], h) && Written(dst[..], dst0, n, h)
    modifies dst, textBuf
    ensures n' == n + 1 && (full <==> n' == dstlen)
    ensures Written(dst[..], dst0, n', h + [c])
    ensures !full ==> r' == Cell(|h| + 1) && RingHolds(textBuf[..], h + [c])
  {
    WrittenOne(dst[..], dst0, n, h, c);
    ghost var d := dst[..];
    dst[n] := c;
    assert dst[..] == d[n := c];
    n', r', full := n + 1, r, false;
    if n' >= dstlen {
      full := true;
      return;
    }
    RingStore(textBuf[..], h, c);
    ghost var ring := textBuf[..];
    textBuf[r] := c;
    assert textBuf[..] == ring[r := c];
    r' := (r + 1) % N;
    CellAdd(|h|, r, 1);
  }

  /** A run of total bytes from distance d behind h0 has come to h after k of them. */
  ghost predicate Copying(h0: History, h: History, d: nat, k: nat, total: nat) {
    1 <= d <= N && k <= total && |h| == |h0| + k && Copy(h, d, total - k) == Copy(h0, d, total)
  }

  lemma {:induction false} CopyingStep(h0: History, h: History, d: nat, k: nat, total: nat)
    requires Copying(h0, h, d, k, total) && k < total
    ensures Copying(h0, h + [h[|h| - d]], d, k + 1, total)
    ensures h + [h[|h| - d]] <= Copy(h0, d, total)
  {
  }

  lemma CopyingCell(h0: nat, i: nat, k: nat)
    requires h0 >= N && i < N
    ensures (i + k) % N == Cell(h0 + k - Distance(h0, i))
  {
    CellAdd(h0 - Distance(h0, i), i, k);
  }

  /** Byte k of a run: the ring cell at distance d behind is repeated. */
  method CopyByte(dst: array<Byte>, dstlen: nat, textBuf: array<Byte>, n: nat, r: nat, i: nat, k: nat,
                  ghost total: nat, ghost dst0: seq<Byte>, ghost h0: History, ghost h: History)
    returns (n': nat, r': nat, full: bool, ghost h': History)
    requires dst != textBuf && textBuf.Length == N + F - 1 && n < dstlen <= dst.Length && i < N
    requires k < total && Copying(h0, h, Distance(|h0|, i), k, total)
    requires r == Cell(|h|) && RingHolds(textBuf[..], h) && Written(dst[..], dst0, n, h)
    modifies dst, textBuf
    ensures n' == n + 1 && (full <==> n' == dstlen) && Written(dst[..], dst0, n', h')
    ensures Copying(h0, h', Distance(|h0|, i), k + 1, total) && h' <= Copy(h0, Distance(|h0|, i), total)
    ensures !full ==> r' == Cell(|h'|) && RingHolds(textBuf[..], h')
  {
    ghost var d := Distance(|h0|, i);
    CopyingCell(|h0|, i, k);
    CopyingStep(h0, h, d, k, total);
    var c := textBuf[(i + k) % N];
    assert c == textBuf[..][(i + k) % N] == h[|h| - d];
    h' := h + [h[|h| - d]];
    n', r', full := Put(dst, dstlen, textBuf, n, r, c, dst0, h);
  }

  /** Lines 155-163: a run of j + 1 bytes from ring cell i on. */
  method CopyRun(dst: array<Byte>, dstlen: nat, textBuf: array<Byte>, n0: nat, r0: nat, i: nat, j: nat,
                 ghost dst0: seq<Byte>, ghost h0: History)
    returns (n: nat, r: nat, full: bool, ghost h: History)
    requires dst != textBuf && textBuf.Length == N + F - 1 && n0 < dstlen <= dst.Length && i < N
    requires r0 == Cell(|h0|) && RingHolds(textBuf[..], h0) && Written(dst[..], dst0, n0, h0)
    modifies dst, textBuf
    ensures Written(dst[..], dst0, n, h) && n <= dstlen
    ensures full ==> n == dstlen && h <= Copy(h0, Distance(|h0|, i), j + 1)
    ensures !full ==> n < dstlen && h == Copy(h0, Distance(|h0|, i), j + 1)
                      && r == Cell(|h|) && RingHolds(textBuf[..], h)
  {
    n, r, full, h := n0, r0, false, h0;
    var k := 0;
    while k <= j
      invariant n < dstlen && Written(dst[..], dst0, n, h) && Copying(h0, h, Distance(|h0|, i), k, j + 1)
      invariant r == Cell(|h|) && RingHolds(textBuf[..], h)
    {
      n, r, full, h := CopyByte(dst, dstlen, textBuf, n, r, i, k, j + 1, dst0, h0, h);
      if full {
        return;
      }
      k := k + 1;
    }
  }

  /** The flag word of token t: the flag byte and the marker byte, shifted t places. */
  ghost predicate FlagWord(flags: nat, c: Byte, t: nat) {
    t <= 8 && flags == Shr(c + 0xFF00, t)
  }

  lemma {:induction false} ShrStep(x: nat, t: nat)
    ensures Shr(x, t) / 2 == Shr(x, t + 1)
  {
    if t > 0 { ShrStep(x / 2, t - 1); }
  }

  /** Shifting the marker 0xFF00: bit 8 stays set for exactly eight tokens, bit 0 runs through the flag byte. */
  lemma {:induction false} Marker(c: nat, m: nat, t: nat)
    requires t <= 8 && m == [0xFF00, 0x7F80, 0x3FC0, 0x1FE0, 0xFF0, 0x7F8, 0x3FC, 0x1FE, 0xFF][t]
    requires c < 256
    ensures t == 0 ==> Shr(c + 0xFF00, 0) == c + m
    ensures Shr(c + 0xFF00, t) == Shr(c, t) + m && Shr(c, t) < [256, 128, 64, 32, 16, 8, 4, 2, 1][t]
    decreases t
  {
    if t > 0 {
      var m' := [0xFF00, 0x7F80, 0x3FC0, 0x1FE0, 0xFF0, 0x7F8, 0x3FC, 0x1FE, 0xFF][t - 1];
      Marker(c, m', t - 1);
      ShrStep(c + 0xFF00, t - 1);
      ShrStep(c, t - 1);
      assert m' == 2 * m;
    }
  }

  lemma FlagBits(flags: nat, c: Byte, t: nat)
    requires FlagWord(flags, c, t)
    ensures (flags / 0x100) % 2 == 0 <==> t == 8
    ensures t < 8 ==> (flags % 2 == 1 <==> Bit(c, t))
  {
    Marker(c, [0xFF00, 0x7F80, 0x3FC0, 0x1FE0, 0xFF0, 0x7F8, 0x3FC, 0x1FE, 0xFF][t], t);
  }

  /** Where the main loop stands: `rest` is still to be read, and the final history is already determined. */
  ghost predicate Pending(src: seq<Byte>, rest: seq<Byte>, c: Byte, t: nat, h: History, start: History) {
    t <= 8 && Decode(rest, c, t, h) == Decode(src, 0, 8, start)
  }

  /** flags, before it is shifted, says that token t comes next. */
  ghost predicate NextToken(flags: nat, c: Byte, t: nat) {
    FlagWord(flags / 2, c, t) || (t == 8 && flags == 0)
  }

  /** Lines 133-135; the cells that stay uninitialised are reported as `unset`. */
  method NewRing() returns (textBuf: array<Byte>, ghost unset: seq<Byte>)
    ensures fresh(textBuf) && textBuf.Length == N + F - 1 && |unset| == F
    ensures RingHolds(textBuf[..], Initial(StartRing(unset)))
  {
    textBuf := new Byte[N + F - 1];
    for i := 0 to N - F
      invariant forall j :: 0 <= j < i ==> textBuf[j] == 32
    {
      textBuf[i] := 32;
    }
    unset := textBuf[N - F..N];
    InitialHolds(textBuf[..], unset);
  }

  lemma InitialHolds(ring: seq<Byte>, unset: seq<Byte>)
    requires |ring| == N + F - 1 && unset == ring[N - F..N]
    requires forall j :: 0 <= j < N - F ==> ring[j] == 32
    ensures RingHolds(ring, Initial(StartRing(unset)))
  {
    var h := Initial(StartRing(unset));
    forall j | 0 <= j < N ensures ring[Cell(j)] == h[j] {
      if j < F {
        assert Cell(j) == j + N - F && h[j] == StartRing(unset)[N - F + j] == unset[j];
      } else {
        assert Cell(j) == j - F by { ModIs(j + (N - F), 1, j - F); }
        assert h[j] == StartRing(unset)[j - F];
      }
    }
  }

  /** When bit 8 is clear the group is used up. */
  lemma GroupEnds(flags: nat, c: Byte, t: nat)
    requires NextToken(flags, c, t) && (flags / 2 / 0x100) % 2 == 0
    ensures t == 8
  {
    if FlagWord(flags / 2, c, t) { FlagBits(flags / 2, c, t); }
  }

  lemma GroupGoesOn(flags: nat, c: Byte, t: nat)
    requires NextToken(flags, c, t) && (flags / 2 / 0x100) % 2 != 0
    ensures t < 8 && FlagWord(flags / 2, c, t)
  {
    if FlagWord(flags / 2, c, t) { FlagBits(flags / 2, c, t); }
  }

  lemma TokenDone(flags: nat, c: Byte, t: nat)
    requires FlagWord(flags, c, t) && t < 8
    ensures NextToken(flags, c, t + 1)
  {
    ShrStep(c + 0xFF00, t);
  }

  lemma {:induction false} PendingGroup(src: seq<Byte>, pos: nat, c: Byte, h: History, start: History)
    requires pos <= |src| && Pending(src, src[pos..], c, 8, h, start)
    ensures pos < |src| ==> Pending(src, src[pos + 1..], src[pos], 0, h, start)
    ensures pos == |src| ==> h == Decode(src, 0, 8, start)
  {
    if pos < |src| { assert src[pos..][1..] == src[pos + 1..]; }
  }

  lemma {:induction false} PendingToken(src: seq<Byte>, pos: nat, c: Byte, t: nat, h: History, start: History)
    requires pos <= |src| && t < 8 && Pending(src, src[pos..], c, t, h, start)
    ensures Bit(c, t) && pos < |src| ==> Pending(src, src[pos + 1..], c, t + 1, h + [src[pos]], start)
    ensures !Bit(c, t) && pos + 1 < |src| ==>
              Pending(src, src[pos + 2..], c, t + 1,
                      Copy(h, Distance(|h|, MatchCell(src[pos], src[pos + 1])), MatchSize(src[pos + 1])), start)
    ensures (if Bit(c, t) then pos >= |src| else pos + 1 >= |src|) ==> h == Decode(src, 0, 8, start)
  {
    if pos < |src| { assert src[pos..][1..] == src[pos + 1..]; }
    if pos + 1 < |src| { assert src[pos..][2..] == src[pos + 2..]; }
  }

  /** The output is complete, or the room for it is used up. */
  ghost predicate Finished(h: History, all: History, n: nat, dstlen: nat) {
    if n < dstlen then h == all else n == dstlen && h <= all
  }

  lemma {:induction false} FinishedOutput(dst: seq<Byte>, dst0: seq<Byte>, n: nat, dstlen: nat, h: History,
      all: History)
    requires Written(dst, dst0, n, h) && Finished(h, all, n, dstlen)
    ensures var out := all[N..];
            n == (if |out| <= dstlen then |out| else dstlen) && dst == out[..n] + dst0[n..]
  {
    assert h[N..] == all[N..][..n];
  }

  /** One token: lines 142-164.  `more` is false when the loop ends here. */
  method DecodeOne(dst: array<Byte>, dstlen: nat, textBuf: array<Byte>, src: seq<Byte>, pos0: nat, n0: nat, r0: nat,
                   flags: nat, ghost c: Byte, ghost t: nat, ghost dst0: seq<Byte>, ghost h0: History,
                   ghost start: History)
    returns (pos: nat, n: nat, r: nat, more: bool, ghost h: History)
    requires dst != textBuf && textBuf.Length == N + F - 1 && n0 < dstlen <= dst.Length && pos0 <= |src|
    requires t < 8 && FlagWord(flags, c, t) && Pending(src, src[pos0..], c, t, h0, start)
    requires r0 == Cell(|h0|) && RingHolds(textBuf[..], h0) && Written(dst[..], dst0, n0, h0)
    modifies dst, textBuf
    ensures Written(dst[..], dst0, n, h)
    ensures more ==> pos0 < pos <= |src| && n < dstlen && Pending(src, src[pos..], c, t + 1, h, start)
                     && r == Cell(|h|) && RingHolds(textBuf[..], h)
    ensures !more ==> Finished(h, Decode(src, 0, 8, start), n, dstlen)
  {
    FlagBits(flags, c, t);
    PendingToken(src, pos0, c, t, h0, start);
    pos, n, r, more, h := pos0, n0, r0, false, h0;
    var full;
    if flags % 2 == 1 {
      if pos < |src| {
        n, r, full := Put(dst, dstlen, textBuf, n, r, src[pos], dst0, h);
        h, pos, more := h + [src[pos]], pos + 1, !full;
      }
    } else if pos + 1 < |src| {
      n, r, full, h := DecodeMatch(dst, dstlen, textBuf, n, r, src[pos], src[pos + 1], dst0, h);
      pos, more := pos + 2, !full;
    }
  }

  /** Lines 152-164: a match token of bytes b0, b1. */
  method DecodeMatch(dst: array<Byte>, dstlen: nat, textBuf: array<Byte>, n0: nat, r0: nat, b0: Byte, b1: Byte,
                     ghost dst0: seq<Byte>, ghost h0: History)
    returns (n: nat, r: nat, full: bool, ghost h: History)
    requires dst != textBuf && textBuf.Length == N + F - 1 && n0 < dstlen <= dst.Length
    requires r0 == Cell(|h0|) && RingHolds(textBuf[..], h0) && Written(dst[..], dst0, n0, h0)
    modifies dst, textBuf
    ensures Written(dst[..], dst0, n, h) && n <= dstlen
    ensures var all := Copy(h0, Distance(|h0|, MatchCell(b0, b1)), MatchSize(b1));
      if full then n == dstlen && h <= all
      else n < dstlen && h == all && r == Cell(|h|) && RingHolds(textBuf[..], h)
  {
    var i, j := MatchCell(b0, b1), b1 % 16 + THRESHOLD;
    n, r, full, h := CopyRun(dst, dstlen, textBuf, n0, r0, i, j, dst0, h0);
  }

  /** Lines 138-141: the flag word is shifted, and refilled from the source when its marker has gone; no token follows
      if the source has ended. */
  method NextFlags(src: seq<Byte>, pos0: nat, flags0: nat, ghost c0: Byte, ghost t0: nat, ghost h: History,
      ghost start: History)
    returns (pos: nat, flags: nat, token: bool, ghost c: Byte, ghost t: nat)
    requires pos0 <= |src| && Pending(src, src[pos0..], c0, t0, h, start) && NextToken(flags0, c0, t0)
    ensures pos0 <= pos <= |src|
    ensures token ==> t < 8 && FlagWord(flags, c, t) && Pending(src, src[pos..], c, t, h, start)
    ensures !token ==> h == Decode(src, 0, 8, start)
  {
    pos, flags, token, c, t := pos0, flags0 / 2, true, c0, t0;
    if (flags / 0x100) % 2 == 0 {
      GroupEnds(flags0, c, t);
      PendingGroup(src, pos, c, h, start);
      if pos >= |src| {
        token := false;
        return;
      }
      flags, c, t := src[pos] as int + 0xFF00, src[pos], 0;
      pos := pos + 1;
    } else {
      GroupGoesOn(flags0, c, t);
    }
  }

  /**
   Decompression writes the output of the source, cut off at dstlen, and nothing else.
   When the 18 uninitialised ring cells, `unset`, show in the result is the subject of module UnsetCells.
   */
  method DecompressLzss(dst: array<Byte>, dstlen: nat, src: seq<Byte>) returns (n: nat, ghost unset: seq<Byte>)
    requires 1 <= dstlen <= dst.Length
    modifies dst
    ensures |unset| == F
    ensures var out := Output(src, unset);
            && n == (if |out| <= dstlen then |out| else dstlen)
            && dst[..] == out[..n] + old(dst[..])[n..]
  {
    var textBuf;
    textBuf, unset := NewRing();
    ghost var dst0, start := dst[..], Initial(StartRing(unset));
    ghost var all := Decode(src, 0, 8, start);
    ghost var h, c, t: nat := start, 0, 8;
    var pos, r, flags := 0, N - F, 0;
    n := 0;
    assert Cell(N) == N - F by { CellAdd(0, N - F, N); }
    assert src[0..] == src;
    var more := true;
    while more
      invariant Written(dst[..], dst0, n, h)
      invariant more ==> 0 <= pos <= |src| && n < dstlen && 0 <= flags
      invariant more ==> Pending(src, src[pos..], c, t, h, start) && NextToken(flags, c, t)
      invariant more ==> r == Cell(|h|) && RingHolds(textBuf[..], h)
      invariant !more ==> Finished(h, all, n, dstlen)
      decreases more, |src| - pos
    {
      var token;
      pos, flags, token, c, t := NextFlags(src, pos, flags, c, t, h, start);
      if !token {
        break;
      }
      TokenDone(flags, c, t);
      pos, n, r, more, h := DecodeOne(dst, dstlen, textBuf, src, pos, n, r, flags, c, t, dst0, h, start);
      t := t + 1;
    }
    FinishedOutput(dst[..], dst0, n, dstlen, h, all);
  }
}
