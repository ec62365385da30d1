/** The LZSS decoder `decompress_lzss`: a 4096-byte ring driven by a self-counting flag register,
  proved to refine plain sliding-window decoding.
 */
module LzssDecoder {
  import opened Bytes
  import opened LzssParams

  // ---------- The reference: tokens and a sliding window ----------

  datatype Token = Literal(b: byte) | Copy(pos: int, len: int)

  function Shift(c: int, b: nat): int {
    if b == 0 then c else Shift(c, b - 1) / 2
  }

  /** Bit `b` of a flag byte. */
  function Bit(c: byte, b: nat): int {
    Shift(c, b) % 2
  }

  /** The token that starts `src` under flag bit `bit`, if it is complete. */
  function Item(src: seq<byte>, bit: int): (t: Token)
    requires |src| >= ItemSize(bit)
  {
    if bit == 1 then Literal(src[0])
    else Copy(src[0] as int + src[1] as int / 16 * 256, src[1] % 16 + THRESHOLD + 1)
  }

  function ItemSize(bit: int): nat { if bit == 1 then 1 else 2 }

  /** The tokens of `src`, when `b` items have been taken under flag byte `c`; a fresh flag byte is
      read after eight, and an incomplete last item is dropped. */
  function Tokens(src: seq<byte>, c: byte, b: int): seq<Token>
    requires 0 <= b <= 8
    decreases |src|, 8 - b
  {
    if b == 8 then
      if src == [] then [] else Tokens(src[1..], src[0], 0)
    else if |src| < ItemSize(Bit(c, b)) then []
    else [Item(src, Bit(c, b))] + Tokens(src[ItemSize(Bit(c, b))..], c, b + 1)
  }

  /** `len` times, repeat the byte `d` places back. */
  function CopyBack(h: seq<byte>, d: int, len: int): (h': seq<byte>)
    requires 1 <= d <= |h|
    ensures |h'| == |h| + (if len > 0 then len else 0)
    ensures h <= h'
    decreases len
  {
    if len <= 0 then h else CopyBack(h + [h[|h| - d]], d, len - 1)
  }

  /** How far back a ring position lies when `m` bytes have been written: 1 to N places. */
  function Distance(pos: int, m: int): (d: int)
    ensures 1 <= d <= N
  {
    1 + (N - F + m - 1 - pos) % N
  }

  function ExpandOne(t: Token, h: seq<byte>): (h': seq<byte>)
    requires |h| >= N
    ensures h <= h'
  {
    match t
    case Literal(b) => h + [b]
    case Copy(pos, len) => CopyBack(h, Distance(pos, |h|), len)
  }

  /** Plain sliding-window decoding: all history, from the first window to the last output byte. */
  function Expand(ts: seq<Token>, h: seq<byte>): (h': seq<byte>)
    requires |h| >= N
    ensures h <= h'
  {
    if ts == [] then h else Expand(ts[1..], ExpandOne(ts[0], h))
  }

  /** The window before the first byte: the F cells the decoder leaves unset, then spaces. */
  function Window(unset: seq<byte>): (w: seq<byte>)
    requires |unset| == F
    ensures |w| == N
  {
    unset + seq(N - F, _ => ' ' as int)
  }

  function Decode(src: seq<byte>, unset: seq<byte>): seq<byte>
    requires |unset| == F
  {
    Expand(Tokens(src, 0, 8), Window(unset))[N..]
  }

  // ---------- The flag register ----------

  /** The marker above a flag byte, shifted `b` times. */
  function Marker(b: int): int
    requires 0 <= b <= 8
  {
    [0xFF00, 0x7F80, 0x3FC0, 0x1FE0, 0xFF0, 0x7F8, 0x3FC, 0x1FE, 0xFF][b]
  }

  lemma {:induction false} RegisterSplits(c: byte, b: int)
    requires 0 <= b <= 8
    ensures Shift(c as int + 0xFF00, b) == Shift(c, b) + Marker(b)
    ensures 0 <= Shift(c, b) <= [255, 127, 63, 31, 15, 7, 3, 1, 0][b]
  {
    if b == 0 {
    } else {
      RegisterSplits(c, b - 1);
    }
  }

  /** The register counts to eight by itself: bit 8 stays set for eight shifts, and bit 0 is then
      bit `b` of the flag byte. */
  lemma RegisterCounts(c: byte, b: int)
    requires 0 <= b <= 8
    ensures Shift(c as int + 0xFF00, b) / 0x100 % 2 == (if b < 8 then 1 else 0)
    ensures b < 8 ==> Shift(c as int + 0xFF00, b) % 2 == Bit(c, b)
  {
    RegisterSplits(c, b);
  }

  /** The register at the top of the loop, when `b` items have been taken under flag byte `c`. */
  ghost predicate Counting(flags: int, c: byte, b: int) {
    0 <= b <= 8 && if b < 8 then flags / 2 == Shift(c as int + 0xFF00, b) else flags / 2 / 0x100 % 2 == 0
  }

  lemma ShiftRegister(flags: int, c: byte, b: int)
    requires Counting(flags, c, b)
    ensures flags / 2 / 0x100 % 2 == 0 <==> b == 8
    ensures b < 8 ==> flags / 2 % 2 == Bit(c, b) && Counting(flags / 2, c, b + 1)
  {
    if b < 8 {
      RegisterCounts(c, b);
      RegisterCounts(c, b + 1);
    }
  }

  lemma FreshRegister(c: byte)
    ensures (c as int + 0xFF00) % 2 == Bit(c, 0) && Counting(c as int + 0xFF00, c, 1)
  {
    RegisterCounts(c, 0);
  }

  // ---------- The ring ----------

  /** The ring holds the last N bytes of history, byte `j` in cell `(N - F + j) % N`. */
  ghost predicate Ring(text: seq<byte>, h: seq<byte>)
    requires |text| == N + F - 1
  {
    && |h| >= N
    && forall j :: |h| - N <= j < |h| ==> text[(N - F + j) % N] == h[j]
  }

  lemma RingStart(text: seq<byte>)
    requires |text| == N + F - 1
    requires forall i :: 0 <= i < N - F ==> text[i] == ' ' as int
    ensures Ring(text, Window(text[N - F..N]))
  {
  }

  lemma RingPut(text: seq<byte>, h: seq<byte>, b: byte)
    requires |text| == N + F - 1 && Ring(text, h)
    ensures Ring(text[(N - F + |h|) % N := b], h + [b])
  {
  }

  /** Reading ring cell `pos` is reading that many places back in history. */
  lemma RingGet(text: seq<byte>, h: seq<byte>, pos: int)
    requires |text| == N + F - 1 && Ring(text, h)
    ensures text[pos % N] == h[|h| - Distance(pos, |h|)]
  {
    var j := |h| - Distance(pos, |h|);
    assert (N - F + j) % N == pos % N;
  }

  // ---------- The decoder ----------

  /** How many bytes a destination of `dstlen` bytes can receive: its end is looked at only after a
      byte was stored, so one of length 0 receives a byte too. */
  function Limit(dstlen: int): int {
    if dstlen < 1 then 1 else dstlen
  }

  /** Output, cut to what the destination receives. */
  function Cut(out: seq<byte>, dstlen: int): seq<byte> {
    if |out| < Limit(dstlen) then out else out[..Limit(dstlen)]
  }

  /** Between items: what is decoded is in `dst`, the ring mirrors it, and there is room left. */
  ghost predicate Ready(dst: array<byte>, dstlen: int, textBuf: array<byte>, n: int, r: int, h: seq<byte>)
    reads dst, textBuf
  {
    && textBuf.Length == N + F - 1 && dst != textBuf
    && Written(dst, n, h) && n < Limit(dstlen) <= dst.Length
    && Ring(textBuf[..], h) && r == (N - F + |h|) % N
  }

  /** The destination holds what has been decoded so far. */
  ghost predicate Written(dst: array<byte>, n: int, h: seq<byte>)
    reads dst
  {
    0 <= n <= dst.Length && |h| == N + n && dst[..n] == h[N..]
  }

  /** Store one byte; when it fills the destination the ring is left as it was. */
  method Emit(dst: array<byte>, dstlen: int, textBuf: array<byte>, n: int, r: int, x: byte, ghost h: seq<byte>)
      returns (n': int, r': int)
    requires Ready(dst, dstlen, textBuf, n, r, h)
    modifies dst, textBuf
    ensures n' == n + 1 <= Limit(dstlen) && Written(dst, n', h + [x]) && dst[n'..] == old(dst[..])[n'..]
    ensures n' < Limit(dstlen) ==> Ready(dst, dstlen, textBuf, n', r', h + [x])
  {
    dst[n] := x;
    n', r' := n + 1, r;
    assert dst[..n'] == (h + [x])[N..];
    if n' >= dstlen {
      return;
    }
    RingPut(textBuf[..], h, x);
    textBuf[r] := x;
    r' := (r + 1) % N;
  }

  lemma CopyStep(h: seq<byte>, d: int, len: int)
    requires 1 <= d <= |h| && len > 0
    ensures CopyBack(h, d, len) == CopyBack(h + [h[|h| - d]], d, len - 1)
  {
  }

  /** Source and target of a copy move on together. */
  lemma SameDistance(pos: int, m: int, k: int)
    ensures Distance(pos + k, m + k) == Distance(pos, m)
  {
  }

  lemma TailShrinks(a: seq<byte>, b: seq<byte>, n: int)
    requires 0 <= n < |a| == |b| && a[n..] == b[n..]
    ensures a[n + 1..] == b[n + 1..]
  {
    assert a[n + 1..] == a[n..][1..] && b[n + 1..] == b[n..][1..];
  }

  /** Copy `len` bytes from ring position `pos` on. */
  method CopyRun(dst: array<byte>, dstlen: int, textBuf: array<byte>, n: int, r: int, pos: int, len: int,
                 ghost h: seq<byte>)
      returns (n': int, r': int, ghost h': seq<byte>)
    requires Ready(dst, dstlen, textBuf, n, r, h) && len > 0
    modifies dst, textBuf
    ensures Written(dst, n', h') && 1 <= n' <= Limit(dstlen) && dst[n'..] == old(dst[..])[n'..]
    ensures h' <= CopyBack(h, Distance(pos, |h|), len)
    ensures n' < Limit(dstlen) ==> h' == CopyBack(h, Distance(pos, |h|), len) && Ready(dst, dstlen, textBuf, n', r', h')
  {
    hide CopyBack, Distance, Ring;
    n', r', h' := n, r, h;
    ghost var d := Distance(pos, |h|);
    for k := 0 to len
      invariant Ready(dst, dstlen, textBuf, n', r', h') && dst[n'..] == old(dst[..])[n'..]
      invariant |h'| == |h| + k && CopyBack(h, d, len) == CopyBack(h', d, len - k)
    {
      var x := textBuf[(pos + k) % N];
      SameDistance(pos, |h|, k);
      RingGet(textBuf[..], h', pos + k);
      CopyStep(h', d, len - k);
      TailShrinks(dst[..], old(dst[..]), n');
      n', r' := Emit(dst, dstlen, textBuf, n', r', x, h');
      h' := h' + [x];
      if n' >= dstlen {
        return;
      }
    }
  }

  lemma NextToken(src: seq<byte>, s: int, c: byte, b: int, h: seq<byte>)
    requires 0 <= b < 8 && |h| >= N && 0 <= s <= |src| && |src| - s >= ItemSize(Bit(c, b))
    ensures Expand(Tokens(src[s..], c, b), h)
         == Expand(Tokens(src[s + ItemSize(Bit(c, b))..], c, b + 1), ExpandOne(Item(src[s..], Bit(c, b)), h))
  {
    assert src[s..][ItemSize(Bit(c, b))..] == src[s + ItemSize(Bit(c, b))..];
  }

  /** Fill the low part of the ring with spaces; the F cells above it keep what they held. */
  method Blank(textBuf: array<byte>)
    requires textBuf.Length == N + F - 1
    modifies textBuf
    ensures Ring(textBuf[..], Window(old(textBuf[N - F..N])))
  {
    ghost var unset := textBuf[N - F..N];
    for i := 0 to N - F
      invariant forall j :: 0 <= j < i ==> textBuf[j] == ' ' as int
      invariant textBuf[N - F..N] == unset
    {
      textBuf[i] := ' ' as int;
    }
    RingStart(textBuf[..]);
  }

  /** Decode one whole item under flag bit `bit`. */
  method TakeItem(dst: array<byte>, dstlen: int, src: seq<byte>, textBuf: array<byte>, bit: int, n: int, r: int, s: int,
                  ghost h: seq<byte>)
      returns (n': int, r': int, ghost h': seq<byte>)
    requires Ready(dst, dstlen, textBuf, n, r, h) && 0 <= s && s + ItemSize(bit) <= |src|
    modifies dst, textBuf
    ensures Written(dst, n', h') && 1 <= n' <= Limit(dstlen) && dst[n'..] == old(dst[..])[n'..]
    ensures h' <= ExpandOne(Item(src[s..], bit), h)
    ensures n' < Limit(dstlen) ==> Ready(dst, dstlen, textBuf, n', r', h') && h' == ExpandOne(Item(src[s..], bit), h)
  {
    if bit == 1 {
      n', r' := Emit(dst, dstlen, textBuf, n, r, src[s], h);
      h' := h + [src[s]];
    } else {
      var i, j := src[s] as int, src[s + 1] as int;
      i := i + j / 16 * 256;
      j := j % 16 + THRESHOLD;
      assert Item(src[s..], bit) == Copy(i, j + 1);
      n', r', h' := CopyRun(dst, dstlen, textBuf, n, r, i, j + 1, h);
    }
  }

  lemma Exhausted(src: seq<byte>, c: byte, b: int, h: seq<byte>)
    requires 0 <= b <= 8 && |h| >= N && |src| < if b < 8 then ItemSize(Bit(c, b)) else 1
    ensures Expand(Tokens(src, c, b), h) == h
  {
  }

  lemma FreshFlags(src: seq<byte>, s: int, c: byte)
    requires 0 <= s < |src|
    ensures Tokens(src[s..], c, 8) == Tokens(src[s + 1..], src[s], 0)
  {
    assert src[s..][1..] == src[s + 1..];
  }

  /** Shift the register, refilling it from the source after eight items. */
  method NextFlag(src: seq<byte>, flags: int, s: int, ghost c: byte, ghost b: int)
      returns (more: bool, flags': int, bit: int, s': int, ghost c': byte, ghost b': int)
    requires 0 <= s <= |src| && Counting(flags, c, b)
    ensures more <==> b < 8 || s < |src|
    ensures !more ==> s' == s && c' == c && b' == b
    ensures more ==>
      && 0 <= b' < 8 && s <= s' <= |src| && bit == Bit(c', b') && Counting(flags', c', b' + 1)
      && Tokens(src[s..], c, b) == Tokens(src[s'..], c', b')
  {
    more, s', c', b', bit := true, s, c, b, 0;
    ShiftRegister(flags, c, b);
    flags' := flags / 2;
    if flags' / 0x100 % 2 == 0 {
      if s >= |src| {
        more := false;
        return;
      }
      FreshFlags(src, s, c);
      FreshRegister(src[s]);
      c', b' := src[s], 0;
      flags' := src[s] as int + 0xFF00;
      s' := s + 1;
    }
    bit := flags' % 2;
  }

  /** A decoder that stops early has written a prefix of the whole output. */
  lemma CutShort(h: seq<byte>, h1: seq<byte>, goal: seq<byte>, n: int)
    requires h <= h1 <= goal && |h| == N + n && n >= 0
    ensures h[N..] == goal[N..][..n]
  {
    assert h == goal[..N + n];
  }

  /** The item loop, over a ring that already holds the first window. */
  method DecodeItems(dst: array<byte>, dstlen: int, src: seq<byte>, textBuf: array<byte>, ghost window: seq<byte>)
      returns (n: int)
    requires |window| == N && Ready(dst, dstlen, textBuf, 0, N - F, window)
    modifies dst, textBuf
    ensures 0 <= n <= dst.Length && dst[n..] == old(dst[..])[n..]
    ensures var goal := Expand(Tokens(src, 0, 8), window);
      |goal| >= N && dst[..n] == Cut(goal[N..], dstlen)
  {
    hide Expand, Tokens, Item, ExpandOne;
    ghost var goal := Expand(Tokens(src, 0, 8), window);
    var r, s, flags := N - F, 0, 0;
    n := 0;
    ghost var c: byte, b, h := 0, 8, window;
    assert src[0..] == src;
    while true
      invariant 0 <= s <= |src| && Counting(flags, c, b)
      invariant Ready(dst, dstlen, textBuf, n, r, h) && dst[n..] == old(dst[..])[n..]
      invariant goal == Expand(Tokens(src[s..], c, b), h)
      decreases |src| - s
    {
      var more, bit;
      more, flags, bit, s, c, b := NextFlag(src, flags, s, c, b);
      if !more || |src| - s < ItemSize(bit) {
        Exhausted(src[s..], c, b, h);
        break;
      }
      NextToken(src, s, c, b, h);
      ghost var whole := ExpandOne(Item(src[s..], bit), h);
      n, r, h := TakeItem(dst, dstlen, src, textBuf, bit, n, r, s, h);
      if n >= dstlen {
        CutShort(h, whole, goal, n);
        return;
      }
      s, b := s + ItemSize(bit), b + 1;
    }
  }

  /** `dst` is the memory from the destination on, of which the destination is the first `dstlen` bytes. */
  method Decompress(dst: array<byte>, dstlen: int, src: seq<byte>, textBuf: array<byte>) returns (n: int)
    requires 0 <= dstlen <= dst.Length && dst.Length >= 1 && textBuf.Length == N + F - 1 && dst != textBuf
    modifies dst, textBuf
    ensures 0 <= n <= dst.Length && dst[..n] == Cut(Decode(src, old(textBuf[N - F..N])), dstlen)
    ensures dst[n..] == old(dst[..])[n..]
  {
    ghost var window := Window(textBuf[N - F..N]);
    Blank(textBuf);
    assert (N - F + N) % N == N - F;
    n := DecodeItems(dst, dstlen, src, textBuf, window);
  }

  // ---------- What decoding can produce ----------

  lemma {:induction false} GrowthBound(src: seq<byte>, c: byte, b: int, h: seq<byte>)
    requires 0 <= b <= 8 && |h| >= N
    ensures 17 * (|Expand(Tokens(src, c, b), h)| - |h|) <= 144 * |src| + 18 * (8 - b)
    decreases |src|, 8 - b
  {
    if b == 8 {
      if src != [] {
        GrowthBound(src[1..], src[0], 0, h);
      }
    } else if |src| >= ItemSize(Bit(c, b)) {
      var k := ItemSize(Bit(c, b));
      assert src[0..] == src;
      NextToken(src, 0, c, b, h);
      GrowthBound(src[k..], c, b + 1, ExpandOne(Item(src, Bit(c, b)), h));
    }
  }

  /** No source expands by more than eight 18-byte copies for every 17 bytes read. */
  lemma DecodeBound(src: seq<byte>, unset: seq<byte>)
    requires |unset| == F
    ensures 17 * |Decode(src, unset)| <= 144 * |src|
  {
    GrowthBound(src, 0, 8, Window(unset));
  }

  /** Sources too short for a flag byte and a whole item after it. */
  predicate NoItem(src: seq<byte>) {
    |src| < 2 || (|src| == 2 && src[0] % 2 == 0)
  }

  lemma NothingIff(src: seq<byte>, unset: seq<byte>)
    requires |unset| == F
    ensures Decode(src, unset) == [] <==> NoItem(src)
  {
    hide Expand, Tokens, Item, ExpandOne;
    var h := Window(unset);
    if src == [] {
      Exhausted(src, 0, 8, h);
    } else {
      FreshFlags(src, 0, 0);
      assert src[0..] == src;
      FirstBit(src[0]);
      var k := ItemSize(Bit(src[0], 0));
      if |src| < 1 + k {
        Exhausted(src[1..], src[0], 0, h);
      } else {
        NextToken(src, 1, src[0], 0, h);
        ItemGrows(src[1..], Bit(src[0], 0), h);
      }
    }
  }

  lemma FirstBit(c: byte)
    ensures Bit(c, 0) == c % 2
  {
  }

  lemma ItemGrows(src: seq<byte>, bit: int, h: seq<byte>)
    requires |src| >= ItemSize(bit) && |h| >= N
    ensures |ExpandOne(Item(src, bit), h)| > |h|
  {
  }

  /** Decoding stays within the destination exactly if that has room for a byte or the source has no
      whole item. */
  lemma WithinDestination(src: seq<byte>, unset: seq<byte>, dstlen: int)
    requires |unset| == F && 0 <= dstlen
    ensures |Cut(Decode(src, unset), dstlen)| <= dstlen <==> dstlen >= 1 || NoItem(src)
  {
    hide Decode;
    NothingIff(src, unset);
  }

  /** The shortest source that does not: a flag byte and a literal store one byte in no room at all. */
  lemma OneTooMany(x: byte, unset: seq<byte>)
    requires |unset| == F
    ensures Cut(Decode([1, x], unset), 0) == [x]
  {
    hide Expand, Tokens, Item, ExpandOne;
    var src, h := [1, x], Window(unset);
    FreshFlags(src, 0, 0);
    assert src[0..] == src;
    FirstBit(1);
    NextToken(src, 1, 1, 0, h);
    LiteralItem(src[1..], h);
    Exhausted(src[2..], 1, 1, h + [x]);
  }

  lemma LiteralItem(src: seq<byte>, h: seq<byte>)
    requires src != [] && |h| >= N
    ensures ExpandOne(Item(src, 1), h) == h + [src[0]]
  {
  }

  /** A smaller destination receives a prefix of what a larger one receives, and with more source
      either receives at least as much. */
  lemma SmallerDestination(src: seq<byte>, more: seq<byte>, unset: seq<byte>, dstlen: int, dstlen': int)
    requires |unset| == F && 0 <= dstlen <= dstlen'
    ensures Cut(Decode(src, unset), dstlen) <= Cut(Decode(src + more, unset), dstlen')
  {
    hide Expand, Tokens;
    MoreSource(src, more, 0, 8, Window(unset));
    var out, out' := Decode(src, unset), Decode(src + more, unset);
    assert out <= out';
  }

  lemma ItemPrefix(src: seq<byte>, more: seq<byte>, bit: int)
    requires |src| >= ItemSize(bit)
    ensures Item(src + more, bit) == Item(src, bit)
  {
  }

  /** Decoding is incremental: cutting a source short loses output only at the end. */
  lemma {:induction false} MoreSource(src: seq<byte>, more: seq<byte>, c: byte, b: int, h: seq<byte>)
    requires 0 <= b <= 8 && |h| >= N
    ensures Expand(Tokens(src, c, b), h) <= Expand(Tokens(src + more, c, b), h)
    decreases |src|, 8 - b
  {
    hide Expand, Item, ExpandOne, Shift, CopyBack;
    var k := if b < 8 then ItemSize(Bit(c, b)) else 1;
    if |src| < k {
      Exhausted(src, c, b, h);
      assert Expand(Tokens(src, c, b), h) == h;
    } else if b == 8 {
      assert (src + more)[1..] == src[1..] + more;
      MoreSource(src[1..], more, src[0], 0, h);
    } else {
      assert src[0..] == src && (src + more)[0..] == src + more && (src + more)[k..] == src[k..] + more;
      ItemPrefix(src, more, Bit(c, b));
      NextToken(src, 0, c, b, h);
      NextToken(src + more, 0, c, b, h);
      MoreSource(src[k..], more, c, b + 1, ExpandOne(Item(src, Bit(c, b)), h));
    }
  }
}
