/** The checksum `mkext_adler32`: Adler-32 (section 2.2 of RFC 1950) with the modulus deferred. */
module Adler32 {
  import opened Bytes

  const BASE := 65521
  const NMAX := 5552

  datatype Sums = Sums(s1: int, s2: int)

  /** The definition: both sums reduced after every byte. */
  function Reduced(p: Sums, buf: seq<byte>): (q: Sums)
    requires 0 <= p.s1 < BASE && 0 <= p.s2 < BASE
    ensures 0 <= q.s1 < BASE && 0 <= q.s2 < BASE
  {
    if buf == [] then p
    else AddReduced(Reduced(p, buf[..|buf| - 1]), buf[|buf| - 1])
  }

  function AddReduced(p: Sums, x: byte): (q: Sums)
    ensures 0 <= q.s1 < BASE && 0 <= q.s2 < BASE
  {
    var s1 := (p.s1 + x) % BASE;
    Sums(s1, (p.s2 + s1) % BASE)
  }

  function Checksum(buf: seq<byte>): int {
    var q := Reduced(Sums(1, 0), buf);
    q.s2 * 0x1_0000 + q.s1
  }

  /** The sum of the first `k` bytes, and the sum in which the first byte counts `n` times, the next one
      time less, and so on. */
  function Sum(buf: seq<byte>, k: int): int
    requires 0 <= k <= |buf|
  {
    if k == 0 then 0 else Sum(buf, k - 1) + buf[k - 1]
  }

  function Weighted(buf: seq<byte>, n: int, k: int): int
    requires 0 <= k <= |buf|
  {
    if k == 0 then 0 else Weighted(buf, n, k - 1) + (n - (k - 1)) * buf[k - 1]
  }

  /** The same sums without any reduction. */
  function Raw(p: Sums, buf: seq<byte>): Sums {
    if buf == [] then p
    else
      var q := Raw(p, buf[..|buf| - 1]);
      var s1 := q.s1 + buf[|buf| - 1];
      Sums(s1, q.s2 + s1)
  }

  function Mod(p: Sums): Sums {
    Sums(p.s1 % BASE, p.s2 % BASE)
  }

  lemma ModAdd(x: int, y: int)
    ensures (x % BASE + y) % BASE == (x + y) % BASE
  {
  }

  lemma ModStep(q: Sums, x: byte)
    ensures Mod(Sums(q.s1 + x, q.s2 + (q.s1 + x))) == AddReduced(Mod(q), x)
  {
    ModAdd(q.s1, x);
    ModAdd(q.s2, q.s1 + x);
    ModAdd(q.s1 + x, q.s2 % BASE);
  }

  /** Reducing once at the end of a block gives what reducing at every byte gives. */
  lemma {:induction false} DeferredReduction(p: Sums, buf: seq<byte>)
    requires 0 <= p.s1 < BASE && 0 <= p.s2 < BASE
    ensures Mod(Raw(p, buf)) == Reduced(p, buf)
  {
    hide AddReduced;
    if buf == [] {
    } else {
      DeferredReduction(p, buf[..|buf| - 1]);
      ModStep(Raw(p, buf[..|buf| - 1]), buf[|buf| - 1]);
    }
  }

  /** Twice the largest value of the second sum after `n` bytes: 2 * (255n(n+1)/2 + (n+1)(BASE-1)). */
  function TwiceLimit(n: int): int {
    255 * n * (n + 1) + 2 * (n + 1) * (BASE - 1)
  }

  lemma {:induction false} RawLimit(p: Sums, buf: seq<byte>)
    requires 0 <= p.s1 < BASE && 0 <= p.s2 < BASE
    ensures 0 <= Raw(p, buf).s1 <= BASE - 1 + 255 * |buf|
    ensures 0 <= 2 * Raw(p, buf).s2 <= TwiceLimit(|buf|)
  {
    if buf == [] {
    } else {
      RawLimit(p, buf[..|buf| - 1]);
      var n := |buf|;
      assert TwiceLimit(n) == TwiceLimit(n - 1) + 2 * (BASE - 1 + 255 * n);
    }
  }

  lemma LimitGrows(m: nat, n: nat)
    requires m <= n
    ensures TwiceLimit(m) <= TwiceLimit(n)
  {
    assert m * (m + 1) <= m * (n + 1);
    assert m * (n + 1) <= n * (n + 1);
  }

  function Full(n: nat): seq<byte> {
    seq(n, _ => 255)
  }

  /** The limit is attained, by the largest bytes after the largest sums. */
  lemma {:induction false} LimitAttained(n: nat)
    ensures Raw(Sums(BASE - 1, BASE - 1), Full(n)).s1 == BASE - 1 + 255 * n
    ensures 2 * Raw(Sums(BASE - 1, BASE - 1), Full(n)).s2 == TwiceLimit(n)
  {
    if n == 0 {
    } else {
      LimitAttained(n - 1);
      assert Full(n)[..n - 1] == Full(n - 1);
      assert TwiceLimit(n) == TwiceLimit(n - 1) + 2 * (BASE - 1 + 255 * n);
    }
  }

  predicate Fits32(p: Sums) {
    0 <= p.s1 < 0x1_0000_0000 && 0 <= p.s2 < 0x1_0000_0000
  }

  /** Within a block of NMAX bytes neither sum passes 2^32 - 1. */
  lemma NoOverflow(p: Sums, buf: seq<byte>)
    requires 0 <= p.s1 < BASE && 0 <= p.s2 < BASE && |buf| <= NMAX
    ensures Fits32(Raw(p, buf))
  {
    RawLimit(p, buf);
    LimitGrows(|buf|, NMAX);
  }

  /** No longer block can be added without a reduction: NMAX is the largest that fits whatever the sums
      and the bytes. */
  lemma LargestBlock(n: nat)
    ensures n <= NMAX <==>
      forall p: Sums, buf: seq<byte> :: 0 <= p.s1 < BASE && 0 <= p.s2 < BASE && |buf| == n ==> Fits32(Raw(p, buf))
  {
    if n <= NMAX {
      forall p: Sums, buf: seq<byte> | 0 <= p.s1 < BASE && 0 <= p.s2 < BASE && |buf| == n ensures Fits32(Raw(p, buf)) {
        NoOverflow(p, buf);
      }
    } else {
      LimitGrows(NMAX + 1, n);
      LimitAttained(n);
      assert |Full(n)| == n && !Fits32(Raw(Sums(BASE - 1, BASE - 1), Full(n)));
    }
  }

  lemma {:induction false} ReducedAppend(p: Sums, a: seq<byte>, b: seq<byte>)
    requires 0 <= p.s1 < BASE && 0 <= p.s2 < BASE
    ensures Reduced(Reduced(p, a), b) == Reduced(p, a + b)
  {
    hide AddReduced;
    if b == [] {
      assert a + b == a;
    } else {
      ReducedAppend(p, a, b[..|b| - 1]);
      assert (a + b)[..|a + b| - 1] == a + b[..|b| - 1];
    }
  }

  lemma RawStep(p: Sums, buf: seq<byte>, from: int, i: int)
    requires 0 <= from <= i < |buf|
    ensures Raw(p, buf[from..i + 1]) ==
      var q := Raw(p, buf[from..i]); Sums(q.s1 + buf[i], q.s2 + q.s1 + buf[i])
  {
    assert buf[from..i + 1][..i - from] == buf[from..i];
  }

  /** One block: sixteen bytes at a time, then the rest, with no reduction and no overflow. */
  method AddBlock(buf: array<byte>, from: int, count: int, p1: int, p2: int) returns (s1: int, s2: int)
    requires 0 <= from && 0 <= count <= NMAX && from + count <= buf.Length
    requires 0 <= p1 < BASE && 0 <= p2 < BASE
    ensures Sums(s1, s2) == Raw(Sums(p1, p2), buf[from..from + count])
  {
    hide Raw;
    ghost var p := Sums(p1, p2);
    var i, k := from, count;
    s1, s2 := p1, p2;
    assert buf[from..from] == [];
    assert Sums(s1, s2) == Raw(p, buf[from..from]) by { RawEmpty(p); }
    while k >= 16
      invariant from <= i && i + k == from + count && 0 <= k
      invariant Sums(s1, s2) == Raw(p, buf[from..i])
    {
      for j := 0 to 16
        invariant Sums(s1, s2) == Raw(p, buf[from..i + j])
      {
        RawStep(p, buf[..], from, i + j);
        assert buf[..][from..i + j] == buf[from..i + j] && buf[..][from..i + j + 1] == buf[from..i + j + 1];
        s1 := s1 + buf[i + j];
        s2 := s2 + s1;
        NoOverflow(p, buf[from..i + j + 1]);
        assert s1 < 0x1_0000_0000 && s2 < 0x1_0000_0000;
      }
      i, k := i + 16, k - 16;
    }
    while k != 0
      invariant from <= i && i + k == from + count && 0 <= k
      invariant Sums(s1, s2) == Raw(p, buf[from..i])
    {
      RawStep(p, buf[..], from, i);
      assert buf[..][from..i] == buf[from..i] && buf[..][from..i + 1] == buf[from..i + 1];
      s1 := s1 + buf[i];
      i := i + 1;
      s2 := s2 + s1;
      NoOverflow(p, buf[from..i]);
      assert s1 < 0x1_0000_0000 && s2 < 0x1_0000_0000;
      k := k - 1;
    }
  }

  lemma RawEmpty(p: Sums)
    ensures Raw(p, []) == p
  {
  }

  method Adler32(buf: array<byte>, len: int) returns (sum: int)
    requires len <= buf.Length
    ensures sum == Checksum(buf[..if len > 0 then len else 0])
    ensures 0 <= sum < 0x1_0000_0000
  {
    hide Raw;
    var s1, s2, i, left := 1, 0, 0, len;
    while left > 0
      invariant 0 <= i <= buf.Length && i == (if len > 0 then len - left else 0) && (len > 0 ==> left >= 0)
      invariant Sums(s1, s2) == Reduced(Sums(1, 0), buf[..i])
    {
      var k := if left < NMAX then left else NMAX;
      left := left - k;
      ghost var p := Sums(s1, s2);
      s1, s2 := AddBlock(buf, i, k, s1, s2);
      DeferredReduction(p, buf[i..i + k]);
      ReducedAppend(Sums(1, 0), buf[..i], buf[i..i + k]);
      assert buf[..i] + buf[i..i + k] == buf[..i + k];
      i := i + k;
      s1 := s1 % BASE;
      s2 := s2 % BASE;
    }
    sum := s2 * 0x1_0000 + s1;
  }

  // ---------- The checksum in closed form ----------

  lemma {:induction false} SumPrefix(buf: seq<byte>, m: int, k: int)
    requires 0 <= k <= m <= |buf|
    ensures Sum(buf[..m], k) == Sum(buf, k)
  {
    if k == 0 {
    } else {
      SumPrefix(buf, m, k - 1);
    }
  }

  lemma {:induction false} WeightedPrefix(buf: seq<byte>, n: int, m: int, k: int)
    requires 0 <= k <= m <= |buf|
    ensures Weighted(buf[..m], n, k) == Weighted(buf, n, k)
  {
    if k == 0 {
    } else {
      WeightedPrefix(buf, n, m, k - 1);
    }
  }

  lemma {:induction false} WeightedMore(buf: seq<byte>, n: int, k: int)
    requires 0 <= k <= |buf|
    ensures Weighted(buf, n + 1, k) == Weighted(buf, n, k) + Sum(buf, k)
  {
    if k == 0 {
    } else {
      WeightedMore(buf, n, k - 1);
      var w, x := n - (k - 1), buf[k - 1] as int;
      assert (w + 1) * x == w * x + x;
    }
  }

  lemma {:induction false} RawClosed(buf: seq<byte>)
    ensures var n := |buf|; Raw(Sums(1, 0), buf) == Sums(1 + Sum(buf, n), n + Weighted(buf, n, n))
  {
    if buf == [] {
    } else {
      var n := |buf|;
      var prev := buf[..n - 1];
      RawClosed(prev);
      SumPrefix(buf, n - 1, n - 1);
      WeightedPrefix(buf, n - 1, n - 1, n - 1);
      WeightedMore(buf, n - 1, n - 1);
    }
  }

  /** The low half is one more than the sum of the bytes, and the high half the weighted sum and the
      length, both modulo 65521. */
  lemma ChecksumIs(buf: seq<byte>)
    ensures var n := |buf|;
      && Checksum(buf) % 0x1_0000 == (1 + Sum(buf, n)) % 65521
      && Checksum(buf) / 0x1_0000 == (n + Weighted(buf, n, n)) % 65521
  {
    hide Raw, Reduced, Sum, Weighted;
    RawClosed(buf);
    DeferredReduction(Sums(1, 0), buf);
  }
}
