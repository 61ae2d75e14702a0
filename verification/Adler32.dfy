/** The archive checksum, with the reduction modulo 65521 put off for 5552 bytes at a time. */
module Adler32 {
  import opened Base

  /** Largest prime below 65536. */
  const BASE := 65521

  /** Bytes between two reductions. */
  const NMAX := 5552

  const WORD := 0x1_0000_0000

  /** The two running sums; `Reduced` ones are residues modulo BASE. */
  datatype Sums = Sums(s1: nat, s2: nat) {
    predicate Reduced() {
      s1 < BASE && s2 < BASE
    }

    predicate FitsWord() {
      s1 < WORD && s2 < WORD
    }
  }

  /** Section 2.2 of RFC 1950: both sums are taken modulo 65521 at every byte. */
  function Reference(buf: seq<Byte>, from: Sums): (r: Sums)
    requires from.Reduced()
    ensures r.Reduced()
  {
    if buf == [] then from
    else
      var s1 := (from.s1 + buf[0]) % BASE;
      Reference(buf[1..], Sums(s1, (from.s2 + s1) % BASE))
  }

  function Checksum(buf: seq<Byte>): (c: nat)
    ensures c < WORD
  {
    var r := Reference(buf, Sums(1, 0));
    r.s2 * 65536 + r.s1
  }

  /** The sums without any reduction. */
  function Raw(buf: seq<Byte>, from: Sums): Sums
    decreases |buf|
  {
    if buf == [] then from
    else Raw(buf[1..], Sums(from.s1 + buf[0], from.s2 + from.s1 + buf[0]))
  }

  function Reduce(s: Sums): (r: Sums)
    ensures r.Reduced()
  {
    Sums(s.s1 % BASE, s.s2 % BASE)
  }

  /** Reducing once at the end is as good as reducing at every byte. */
  lemma {:induction false} DeferredReduction(buf: seq<Byte>, from: Sums)
    ensures Reduce(Raw(buf, from)) == Reference(buf, Reduce(from))
    decreases |buf|
  {
    if buf != [] {
      var next := Sums(from.s1 + buf[0], from.s2 + from.s1 + buf[0]);
      DeferredReduction(buf[1..], next);
      ModSum(from.s1, buf[0]);
      ModSum(from.s2, from.s1 + buf[0]);
      var r1 := (from.s1 % BASE + buf[0]) % BASE;
      ModSumBoth(from.s2, from.s1 + buf[0]);
      assert Reduce(next) == Sums(r1, (from.s2 % BASE + r1) % BASE);
    }
  }

  /** The sum of the bytes. */
  function Total(buf: seq<Byte>): nat {
    if buf == [] then 0 else buf[0] + Total(buf[1..])
  }

  /** The sum of (n - i) * buf[i] over the n bytes. */
  function Weighted(buf: seq<Byte>): nat {
    if buf == [] then 0 else |buf| * buf[0] + Weighted(buf[1..])
  }

  lemma {:induction false} RawSums(buf: seq<Byte>, from: Sums)
    ensures Raw(buf, from) == Sums(from.s1 + Total(buf), from.s2 + |buf| * from.s1 + Weighted(buf))
    decreases |buf|
  {
    if buf != [] {
      RawSums(buf[1..], Sums(from.s1 + buf[0], from.s2 + from.s1 + buf[0]));
      OneByte(|buf| - 1, from.s1, buf[0]);
    }
  }

  lemma OneByte(n: nat, s1: nat, b: nat)
    ensures s1 + b + n * (s1 + b) == (n + 1) * s1 + (n + 1) * b
  {
    assert n * (s1 + b) == n * s1 + n * b;
    assert (n + 1) * s1 == n * s1 + s1 && (n + 1) * b == n * b + b;
  }

  /** The two halves of the checksum in closed form. */
  lemma ClosedForm(buf: seq<Byte>)
    ensures Checksum(buf) % 65536 == (1 + Total(buf)) % 65521
    ensures Checksum(buf) / 65536 == (|buf| + Weighted(buf)) % 65521
  {
    RawSums(buf, Sums(1, 0));
    DeferredReduction(buf, Sums(1, 0));
    assert Reduce(Sums(1, 0)) == Sums(1, 0);
    Halves(Reference(buf, Sums(1, 0)));
  }

  lemma Halves(r: Sums)
    requires r.Reduced()
    ensures (r.s2 * 65536 + r.s1) % 65536 == r.s1 && (r.s2 * 65536 + r.s1) / 65536 == r.s2
  {
  }

  lemma ModSum(a: nat, b: nat)
    ensures (a % BASE + b) % BASE == (a + b) % BASE
  {
    var q := a / BASE;
    assert a + b == q * BASE + (a % BASE + b);
    Shift(q, a % BASE + b);
  }

  lemma ModSumBoth(a: nat, b: nat)
    ensures (a % BASE + b % BASE) % BASE == (a + b) % BASE
  {
    ModSum(b, a % BASE);
    ModSum(a, b);
  }

  lemma Shift(q: nat, x: nat)
    ensures (q * BASE + x) % BASE == x % BASE
  {
    var d, m := x / BASE, x % BASE;
    assert q * BASE + x == (q + d) * BASE + m;
  }

  lemma {:induction false} RawConcat(a: seq<Byte>, b: seq<Byte>, from: Sums)
    ensures Raw(a + b, from) == Raw(b, Raw(a, from))
    decreases |a|
  {
    if a == [] {
      assert a + b == b;
    } else {
      assert (a + b)[1..] == a[1..] + b;
      RawConcat(a[1..], b, Sums(from.s1 + a[0], from.s2 + from.s1 + a[0]));
    }
  }

  lemma {:induction false} ReferenceConcat(a: seq<Byte>, b: seq<Byte>, from: Sums)
    requires from.Reduced()
    ensures Reference(a + b, from) == Reference(b, Reference(a, from))
    decreases |a|
  {
    if a == [] {
      assert a + b == b;
    } else {
      assert (a + b)[1..] == a[1..] + b;
      var s1 := (from.s1 + a[0]) % BASE;
      ReferenceConcat(a[1..], b, Sums(s1, (from.s2 + s1) % BASE));
    }
  }

  /** n bytes raise s1 by at most 255 n, and s2 by at most n times the start plus 255 (1 + ... + n). */
  lemma {:induction false} RawBound(buf: seq<Byte>, from: Sums)
    ensures Raw(buf, from).s1 <= from.s1 + 255 * |buf|
    ensures 2 * Raw(buf, from).s2 <= 2 * from.s2 + 2 * |buf| * from.s1 + 255 * |buf| * (|buf| + 1)
    decreases |buf|
  {
    if buf != [] {
      var n, next := |buf|, Sums(from.s1 + buf[0], from.s2 + from.s1 + buf[0]);
      RawBound(buf[1..], next);
      StepBound(n, from.s1, from.s2, buf[0]);
    }
  }

  lemma StepBound(n: nat, s1: nat, s2: nat, b: Byte)
    requires n >= 1
    ensures 2 * (s2 + s1 + b) + 2 * (n - 1) * (s1 + b) + 255 * (n - 1) * n <= 2 * s2 + 2 * n * s1 + 255 * n * (n + 1)
  {
    var ns, nb, nn := n * s1, n * b, n * n;
    assert (n - 1) * (s1 + b) == ns + nb - s1 - b;
    assert (n - 1) * n == nn - n && n * (n + 1) == nn + n;
    assert nb <= n * 255;
  }

  /** From reduced sums, up to NMAX bytes cannot overflow a 32-bit word at any point. */
  lemma NoOverflow(buf: seq<Byte>, from: Sums)
    requires from.Reduced() && |buf| <= NMAX
    ensures Raw(buf, from).FitsWord()
  {
    RawBound(buf, from);
    var n := |buf|;
    Grow(n, NMAX, from.s1);
  }

  lemma Grow(n: nat, m: nat, s1: nat)
    requires n <= m == NMAX && s1 < BASE
    ensures 2 * n * s1 + 255 * n * (n + 1) <= 2 * NMAX * (BASE - 1) + 255 * NMAX * (NMAX + 1)
  {
    assert n * s1 <= NMAX * (BASE - 1) by { Times(n, NMAX, s1, BASE - 1); }
    assert n * (n + 1) <= NMAX * (NMAX + 1) by { Times(n, NMAX, n + 1, NMAX + 1); }
  }

  lemma Times(a: nat, b: nat, c: nat, d: nat)
    requires a <= b && c <= d
    ensures a * c <= b * d
  {
    assert a * c <= b * c;
    assert b * c <= b * d;
  }

  function Full(n: nat): seq<Byte> {
    seq(n, _ => 255 as Byte)
  }

  lemma {:induction false} RawFull(n: nat, from: Sums)
    ensures 2 * Raw(Full(n), from).s2 == 2 * from.s2 + 2 * n * from.s1 + 255 * n * (n + 1)
    decreases n
  {
    if n > 0 {
      assert Full(n)[1..] == Full(n - 1);
      RawFull(n - 1, Sums(from.s1 + 255, from.s2 + from.s1 + 255));
    }
  }

  /** A block size is safe when no block of that size, from any reduced sums, overflows a 32-bit word. */
  ghost predicate SafeBlock(n: nat) {
    forall buf: seq<Byte>, from: Sums :: |buf| <= n && from.Reduced() ==> Raw(buf, from).FitsWord()
  }

  /** NMAX is the largest safe block size. */
  lemma LargestSafeBlock(n: nat)
    ensures SafeBlock(n) <==> n <= NMAX
  {
    if n <= NMAX {
      forall buf: seq<Byte>, from: Sums | |buf| <= n && from.Reduced() ensures Raw(buf, from).FitsWord() {
        NoOverflow(buf, from);
      }
    } else {
      var worst := Sums(BASE - 1, BASE - 1);
      RawFull(NMAX + 1, worst);
      assert |Full(NMAX + 1)| <= n && worst.Reduced();
      assert !Raw(Full(NMAX + 1), worst).FitsWord();
    }
  }

  /** Lines 69-73: sixteen bytes, written out in the source as nested macros. */
  method Do16(buf: seq<Byte>, at: nat, s1: nat, s2: nat, ghost from: Sums, ghost start: nat)
    returns (t1: nat, t2: nat)
    requires start <= at && at + 16 <= |buf| && at + 16 - start <= NMAX && from.Reduced()
    requires Sums(s1, s2) == Raw(buf[start..at], from)
    ensures Sums(t1, t2) == Raw(buf[start..at + 16], from)
    ensures Sums(t1, t2).FitsWord()
  {
    t1, t2 := s1, s2;
    for i := 0 to 16
      invariant Sums(t1, t2) == Raw(buf[start..at + i], from)
    {
      t1, t2 := Do1(buf, at + i, t1, t2, from, start);
    }
    NoOverflow(buf[start..at + 16], from);
  }

  /** One byte into the sums; neither sum leaves the 32-bit range. */
  method Do1(buf: seq<Byte>, at: nat, s1: nat, s2: nat, ghost from: Sums, ghost start: nat)
    returns (t1: nat, t2: nat)
    requires start <= at < |buf| && at + 1 - start <= NMAX && from.Reduced()
    requires Sums(s1, s2) == Raw(buf[start..at], from)
    ensures Sums(t1, t2) == Raw(buf[start..at + 1], from)
    ensures Sums(t1, t2).FitsWord()
  {
    t1 := s1 + buf[at];
    t2 := s2 + t1;
    assert buf[start..at + 1] == buf[start..at] + [buf[at]];
    RawConcat(buf[start..at], [buf[at]], from);
    NoOverflow(buf[start..at + 1], from);
  }

  /** Lines 69-75: the sixteens of a block of k bytes; p is where its last k bytes, fewer than sixteen, start. */
  method Sixteens(buf: seq<Byte>, at: nat, size: nat, from: Sums) returns (t1: nat, t2: nat, p: nat, k: nat)
    requires size <= NMAX && at + size <= |buf| && from.Reduced()
    ensures k < 16 && at <= p && p + k == at + size && Sums(t1, t2) == Raw(buf[at..p], from)
  {
    t1, t2 := from.s1, from.s2;
    p, k := at, size;
    assert buf[at..at] == [];
    while k >= 16
      invariant k <= size && p + k == at + size
      invariant Sums(t1, t2) == Raw(buf[at..p], from)
    {
      t1, t2 := Do16(buf, p, t1, t2, from, at);
      p, k := p + 16, k - 16;
    }
  }

  /** Lines 76-79: the last bytes of a block that started at `start`. */
  method Rest(buf: seq<Byte>, start: nat, at: nat, end: nat, s1: nat, s2: nat, ghost from: Sums)
      returns (t1: nat, t2: nat)
    requires start <= at <= end <= |buf| && end - start <= NMAX && from.Reduced()
    requires Sums(s1, s2) == Raw(buf[start..at], from)
    ensures Sums(t1, t2) == Raw(buf[start..end], from)
  {
    t1, t2 := s1, s2;
    var k, p := end - at, at;
    while k != 0
      invariant 0 <= k && p + k == end
      invariant Sums(t1, t2) == Raw(buf[start..p], from)
    {
      t1, t2 := Do1(buf, p, t1, t2, from, start);
      p, k := p + 1, k - 1;
    }
  }

  /** The sums over one block, not reduced. */
  method BlockSums(buf: seq<Byte>, at: nat, size: nat, from: Sums) returns (t1: nat, t2: nat)
    requires size <= NMAX && at + size <= |buf| && from.Reduced()
    ensures Sums(t1, t2) == Raw(buf[at..at + size], from)
  {
    var p, k;
    t1, t2, p, k := Sixteens(buf, at, size, from);
    t1, t2 := Rest(buf, at, p, at + size, t1, t2, from);
  }

  /** Lines 67-79: one block and the reduction that ends it. */
  method Block(buf: seq<Byte>, at: nat, size: nat, s1: nat, s2: nat) returns (t1: nat, t2: nat)
    requires size <= NMAX && at + size <= |buf| && Sums(s1, s2).Reduced()
    ensures Sums(t1, t2) == Reference(buf[at..at + size], Sums(s1, s2))
  {
    t1, t2 := BlockSums(buf, at, size, Sums(s1, s2));
    DeferredReduction(buf[at..at + size], Sums(s1, s2));
    assert Reduce(Sums(s1, s2)) == Sums(s1, s2);
    t1, t2 := t1 % BASE, t2 % BASE;
  }

  /** The checksum of the first len bytes; a length of zero or less gives the checksum of nothing. */
  method MkextAdler32(buf: seq<Byte>, len: int) returns (sum: nat)
    requires len <= |buf|
    ensures sum == Checksum(if len > 0 then buf[..len] else [])
  {
    var s1, s2, left, at := 1, 0, len, 0;
    ghost var n := if len > 0 then len else 0;
    assert buf[..0] == [];
    while left > 0
      invariant left == len - at && 0 <= at <= n
      invariant Sums(s1, s2).Reduced()
      invariant Sums(s1, s2) == Reference(buf[..at], Sums(1, 0))
    {
      var k := if left < NMAX then left else NMAX;
      left := left - k;
      s1, s2 := Block(buf, at, k, s1, s2);
      ReferenceConcat(buf[..at], buf[at..at + k], Sums(1, 0));
      assert buf[..at + k] == buf[..at] + buf[at..at + k];
      at := at + k;
    }
    sum := s2 * 65536 + s1;
  }
}
