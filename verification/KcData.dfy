/** The kcdata reader: iterators over a self-describing byte format. */
module KcData {
  import opened Bytes

  const HEADER := 16
  const BUFFER_END := 0xF19158ED
  const ARRAY := 0x11
  const CONTAINER_BEGIN := 0x13
  const THREAD_SNAPSHOT := 0x906
  const SHAREDCACHE_LOADINFO := 0x908

  const SIZEOF_THREAD_SNAPSHOT_V2 := 0x68
  const SIZEOF_UUID_INFO_32 := 20
  const SIZEOF_UUID_INFO_64 := 24

  // ---------- Little-endian fields ----------

  function U32(b: seq<byte>, at: int): (x: int)
    requires 0 <= at && at + 4 <= |b|
    ensures 0 <= x < 0x1_0000_0000
  {
    b[at] as int + 0x100 * (b[at + 1] as int + 0x100 * (b[at + 2] as int + 0x100 * b[at + 3] as int))
  }

  function U64(b: seq<byte>, at: int): (x: int)
    requires 0 <= at && at + 8 <= |b|
    ensures 0 <= x < 0x1_0000_0000_0000_0000
  {
    U32(b, at) + U32(b, at + 4) * 0x1_0000_0000
  }

  function Le32(x: int): (s: seq<byte>)
    requires 0 <= x < 0x1_0000_0000
    ensures |s| == 4 && U32(s, 0) == x
  {
    var x1 := x / 0x100;
    var x2 := x1 / 0x100;
    [x % 0x100, x1 % 0x100, x2 % 0x100, x2 / 0x100]
  }

  // ---------- Items ----------

  function RawType(b: seq<byte>, at: int): int
    requires 0 <= at && at + HEADER <= |b|
  {
    U32(b, at)
  }

  function RawSize(b: seq<byte>, at: int): int
    requires 0 <= at && at + HEADER <= |b|
  {
    U32(b, at + 4)
  }

  function Flags(b: seq<byte>, at: int): int
    requires 0 <= at && at + HEADER <= |b|
  {
    U64(b, at + 8)
  }

  /** `kcdata_iter_valid`: header and payload lie in the buffer. */
  predicate Valid(b: seq<byte>, at: int) {
    0 <= at && at + HEADER <= |b| && at + HEADER + RawSize(b, at) <= |b|
  }

  function Next(b: seq<byte>, at: int): int
    requires Valid(b, at)
  {
    at + HEADER + RawSize(b, at)
  }

  /** All the padded array types, 0x20 to 0x2f, read as ARRAY. */
  function TypeOf(raw: int): int {
    if raw / 16 == 2 then ARRAY else raw
  }

  function Padding(size: int): (p: int)
    ensures 0 <= p < 16 && (size + p) % 16 == 0
  {
    (-size) % 16
  }

  function PaddingFlag(flags: int): int { flags % 16 }

  predicate HasPaddingFlag(flags: int) { flags / 0x80 % 2 == 1 }

  /** `kcdata_iter_is_legacy_item`. */
  predicate IsLegacy(size: int, flags: int, legacySize: int) {
    size == legacySize + Padding(legacySize) && PaddingFlag(flags) == 0 && !HasPaddingFlag(flags)
  }

  /** `kcdata_iter_size`: the size of the payload without padding. */
  function SizeOf(raw: int, size: int, flags: int): int {
    var t := TypeOf(raw);
    if t == ARRAY || t == CONTAINER_BEGIN then size
    else if t == THREAD_SNAPSHOT && IsLegacy(size, flags, SIZEOF_THREAD_SNAPSHOT_V2) then SIZEOF_THREAD_SNAPSHOT_V2
    else if t == SHAREDCACHE_LOADINFO && IsLegacy(size, flags, SIZEOF_UUID_INFO_64) then SIZEOF_UUID_INFO_64
    else if size < PaddingFlag(flags) then 0
    else size - PaddingFlag(flags)
  }

  function IterType(b: seq<byte>, at: int): int
    requires Valid(b, at)
  {
    TypeOf(RawType(b, at))
  }

  function IterSize(b: seq<byte>, at: int): (n: int)
    requires Valid(b, at)
    ensures 0 <= n <= RawSize(b, at)
    ensures IterType(b, at) !in {0x11, 0x13, 0x906, 0x908} ==>
      n == (if RawSize(b, at) < Flags(b, at) % 16 then 0 else RawSize(b, at) - Flags(b, at) % 16)
  {
    SizeOf(RawType(b, at), RawSize(b, at), Flags(b, at))
  }

  datatype Item = Item(kind: int, data: seq<byte>)

  function ItemAt(b: seq<byte>, at: int): Item
    requires Valid(b, at)
  {
    Item(IterType(b, at), b[at + HEADER..at + HEADER + IterSize(b, at)])
  }

  // ---------- Walking ----------

  /** `KCDATA_ITER_FOREACH`: the offsets of the items before the end marker or the first bad item. */
  function Walk(b: seq<byte>, at: int): seq<int>
    decreases |b| - at
  {
    if !Valid(b, at) || RawType(b, at) == BUFFER_END then [] else [at] + Walk(b, Next(b, at))
  }

  /** Where the walk stops. */
  function WalkEnd(b: seq<byte>, at: int): int
    decreases |b| - at
  {
    if !Valid(b, at) || RawType(b, at) == BUFFER_END then at else WalkEnd(b, Next(b, at))
  }

  method FindType(b: seq<byte>, from: int, kind: int) returns (found: bool, at: int)
    ensures found ==>
      exists k :: 0 <= k < |Walk(b, from)| && Walk(b, from)[k] == at && FirstOf(b, Walk(b, from), k, kind)
    ensures !found ==> forall k :: 0 <= k < |Walk(b, from)| ==>
      Valid(b, Walk(b, from)[k]) && IterType(b, Walk(b, from)[k]) != kind
  {
    at := from;
    ghost var seen: seq<int> := [];
    while Valid(b, at) && RawType(b, at) != BUFFER_END
      invariant Walk(b, from) == seen + Walk(b, at)
      invariant forall k :: 0 <= k < |seen| ==> Valid(b, seen[k]) && IterType(b, seen[k]) != kind
      decreases |b| - at
    {
      if IterType(b, at) == kind {
        assert Walk(b, from)[|seen|] == at;
        return true, at;
      }
      seen := seen + [at];
      at := Next(b, at);
    }
    return false, at;
  }

  /** Item `k` of the walk is the first of its kind. */
  ghost predicate FirstOf(b: seq<byte>, offsets: seq<int>, k: int, kind: int)
    requires 0 <= k < |offsets|
  {
    && Valid(b, offsets[k]) && IterType(b, offsets[k]) == kind
    && forall j :: 0 <= j < k ==> Valid(b, offsets[j]) && IterType(b, offsets[j]) != kind
  }

  // ---------- Arrays ----------

  function ElemType(b: seq<byte>, at: int): int
    requires Valid(b, at)
  {
    Flags(b, at) / 0x1_0000_0000
  }

  function ElemCount(b: seq<byte>, at: int): (n: int)
    requires Valid(b, at)
    ensures 0 <= n
  {
    Flags(b, at) % 0x1_0000_0000
  }

  /** The fixed element sizes of arrays from before padding was recorded; 0 for any other type. */
  function LegacyElemSize(elemType: int): (n: int)
    ensures n >= 0
  {
    if elemType == 0x30 then SIZEOF_UUID_INFO_32
    else if elemType == 0x31 then SIZEOF_UUID_INFO_64
    else if elemType == 0x90A || elemType == 0x90C then 8
    else if elemType == 0x90B || elemType == 0x90D then 16
    else if elemType == 0x907 then 4
    else if elemType == 0x941 then 48
    else if elemType == 0x81A then 8
    else 0
  }

  /** `kcdata_iter_array_valid`. */
  predicate ArrayValid(b: seq<byte>, at: int) {
    && Valid(b, at) && IterType(b, at) == ARRAY
    && var size, raw, count := RawSize(b, at), RawType(b, at), ElemCount(b, at);
       if count == 0 then size == 0
       else if raw == ARRAY then
         var elem := LegacyElemSize(ElemType(b, at));
         elem != 0 && count <= size / elem && size % count < 16
       else
         raw % 16 <= size && count <= size - raw % 16 && (size - raw % 16) % count == 0
  }

  /** `kcdata_iter_array_elem_size`, on arrays found valid. */
  function ElemSize(b: seq<byte>, at: int): int
    requires ArrayValid(b, at)
  {
    if RawType(b, at) == ARRAY then LegacyElemSize(ElemType(b, at))
    else if ElemCount(b, at) == 0 then 0
    else (RawSize(b, at) - RawType(b, at) % 16) / ElemCount(b, at)
  }

  lemma MulBelow(count: int, elem: int, size: int)
    requires elem > 0 && 0 <= count <= size / elem
    ensures count * elem <= size
  {
    assert size / elem * elem <= size;
  }

  lemma ExactDivision(size: int, count: int)
    requires count > 0 && size >= 0 && size % count == 0
    ensures count * (size / count) == size
  {
  }

  /** The elements of a valid array lie inside its payload, and fill a padded array exactly. */
  lemma ArrayFits(b: seq<byte>, at: int)
    requires ArrayValid(b, at)
    ensures ElemSize(b, at) >= 0 && 0 <= ElemCount(b, at) * ElemSize(b, at) <= RawSize(b, at)
    ensures RawType(b, at) != ARRAY && ElemCount(b, at) > 0 ==>
      ElemCount(b, at) * ElemSize(b, at) == RawSize(b, at) - RawType(b, at) % 16
  {
    var size, raw, count := RawSize(b, at), RawType(b, at), ElemCount(b, at);
    if count > 0 {
      if raw == ARRAY {
        MulBelow(count, ElemSize(b, at), size);
      } else {
        ExactDivision(size - raw % 16, count);
      }
    }
  }

  lemma MulOrder(a: int, b: int, e: int)
    requires a <= b && e >= 0
    ensures a * e <= b * e
  {
    assert (b - a) * e >= 0;
  }

  lemma ElementInside(b: seq<byte>, at: int, k: int)
    requires ArrayValid(b, at) && 0 <= k < ElemCount(b, at)
    ensures 0 <= at + HEADER + k * ElemSize(b, at) <= at + HEADER + (k + 1) * ElemSize(b, at) <= Next(b, at) <= |b|
  {
    hide ElemSize, ElemCount, RawSize;
    ArrayFits(b, at);
    MulOrder(0, k, ElemSize(b, at));
    MulOrder(k, k + 1, ElemSize(b, at));
    MulOrder(k + 1, ElemCount(b, at), ElemSize(b, at));
  }

  // ---------- Laying out a stream ----------

  /** What a producer adds: a struct, or an array of `count` equal elements. */
  datatype Chunk =
    | StructChunk(kind: int, data: seq<byte>)
    | ArrayChunk(elemKind: int, count: int, elemSize: int, data: seq<byte>)

  predicate Storable(c: Chunk) {
    && |c.data| + Padding(|c.data|) < 0x1_0000_0000
    && match c
       case StructChunk(kind, _) =>
         0 <= kind < 0x1_0000_0000 && kind !in {0xF19158ED, 0x11, 0x13} && !(0x20 <= kind < 0x30)
       case ArrayChunk(kind, count, elemSize, data) =>
         0 <= kind < 0x1_0000_0000 && 0 <= count < 0x1_0000_0000 && elemSize > 0 && |data| == count * elemSize
  }

  function Zeros(n: nat): seq<byte> { seq(n, _ => 0) }

  function Header(raw: int, size: int, lo: int, hi: int): (h: seq<byte>)
    requires 0 <= raw < 0x1_0000_0000 && 0 <= size < 0x1_0000_0000 && 0 <= lo < 0x1_0000_0000 && 0 <= hi < 0x1_0000_0000
    ensures |h| == HEADER
  {
    Le32(raw) + Le32(size) + Le32(lo) + Le32(hi)
  }

  function ChunkBytes(c: Chunk): (b: seq<byte>)
    requires Storable(c)
    ensures |b| >= HEADER
  {
    var pad := Padding(|c.data|);
    (match c
     case StructChunk(kind, data) => Header(kind, |data| + pad, pad + 0x80, 0)
     case ArrayChunk(kind, count, _, data) => Header(0x20 + pad, |data| + pad, count, kind))
    + c.data + Zeros(pad)
  }

  function Layout(cs: seq<Chunk>): seq<byte>
    requires forall i :: 0 <= i < |cs| ==> Storable(cs[i])
  {
    if cs == [] then Header(0xF19158ED, 0, 0, 0) else ChunkBytes(cs[0]) + Layout(cs[1..])
  }

  /** The reader finds `c` at offset `at`. */
  ghost predicate Reads(b: seq<byte>, at: int, c: Chunk) {
    && Valid(b, at)
    && match c
       case StructChunk(kind, data) => ItemAt(b, at) == Item(kind, data)
       case ArrayChunk(kind, count, elemSize, data) =>
         && ArrayValid(b, at) && ElemType(b, at) == kind && ElemCount(b, at) == count
         && (count > 0 ==> ElemSize(b, at) == elemSize)
         && |data| <= RawSize(b, at) && b[at + HEADER..at + HEADER + |data|] == data
  }

  lemma HeaderReads(pre: seq<byte>, post: seq<byte>, raw: int, size: int, lo: int, hi: int)
    requires 0 <= raw < 0x1_0000_0000 && 0 <= size < 0x1_0000_0000 && 0 <= lo < 0x1_0000_0000 && 0 <= hi < 0x1_0000_0000
    ensures var b := pre + (Header(raw, size, lo, hi) + post);
      RawType(b, |pre|) == raw && RawSize(b, |pre|) == size && Flags(b, |pre|) == lo + hi * 0x1_0000_0000
  {
    var h := Header(raw, size, lo, hi);
    var b := pre + (h + post);
    FieldReads(b, |pre|, Le32(raw));
    FieldReads(b, |pre| + 4, Le32(size));
    FieldReads(b, |pre| + 8, Le32(lo));
    FieldReads(b, |pre| + 12, Le32(hi));
  }

  lemma FieldReads(b: seq<byte>, at: int, f: seq<byte>)
    requires 0 <= at && at + 4 <= |b| && |f| == 4
    requires forall i :: 0 <= i < 4 ==> b[at + i] == f[i]
    ensures U32(b, at) == U32(f, 0)
  {
    assert b[at + 0] == f[0];
  }

  /** The bytes of any item are read back as its fields and its payload. */
  lemma ItemReads(pre: seq<byte>, raw: int, lo: int, hi: int, data: seq<byte>, post: seq<byte>)
    requires 0 <= raw < 0x1_0000_0000 && |data| + Padding(|data|) < 0x1_0000_0000
    requires 0 <= lo < 0x1_0000_0000 && 0 <= hi < 0x1_0000_0000
    ensures var pad := Padding(|data|);
      var item := Header(raw, |data| + pad, lo, hi) + data + Zeros(pad);
      var b := pre + (item + post);
      && RawType(b, |pre|) == raw && RawSize(b, |pre|) == |data| + pad && Flags(b, |pre|) == lo + hi * 0x1_0000_0000
      && Valid(b, |pre|) && Next(b, |pre|) == |pre| + |item|
      && b[|pre| + HEADER..|pre| + HEADER + |data|] == data
  {
    hide RawType, RawSize, Flags, Header, Padding;
    var pad := Padding(|data|);
    var h := Header(raw, |data| + pad, lo, hi);
    var tail := data + Zeros(pad) + post;
    assert h + data + Zeros(pad) + post == h + tail;
    HeaderReads(pre, tail, raw, |data| + pad, lo, hi);
  }

  lemma StructReads(pre: seq<byte>, c: Chunk, post: seq<byte>)
    requires Storable(c) && c.StructChunk?
    ensures var b := pre + (ChunkBytes(c) + post);
      Valid(b, |pre|) && Reads(b, |pre|, c) && RawType(b, |pre|) != BUFFER_END
      && Next(b, |pre|) == |pre| + |ChunkBytes(c)|
  {
    hide RawType, RawSize, Flags, Header, Zeros;
    var pad := Padding(|c.data|);
    ItemReads(pre, c.kind, pad + 0x80, 0, c.data, post);
    assert (pad + 0x80) % 16 == pad && (pad + 0x80) / 0x80 % 2 == 1;
  }

  lemma PackedFlags(count: int, kind: int)
    requires 0 <= count < 0x1_0000_0000
    ensures (count + kind * 0x1_0000_0000) % 0x1_0000_0000 == count
    ensures (count + kind * 0x1_0000_0000) / 0x1_0000_0000 == kind
  {
  }

  /** An array whose header says it is padded and holds `count` elements has elements of the size
      it was written with. */
  lemma ArrayHeader(b: seq<byte>, at: int, kind: int, count: int, elem: int, pad: int)
    requires Valid(b, at) && RawType(b, at) == 0x20 + pad && RawSize(b, at) == count * elem + pad
    requires Flags(b, at) == count + kind * 0x1_0000_0000 && 0 <= count < 0x1_0000_0000
    requires elem > 0 && 0 <= pad < 16 && (count == 0 ==> pad == 0)
    ensures ArrayValid(b, at) && ElemType(b, at) == kind && ElemCount(b, at) == count
    ensures count > 0 ==> ElemSize(b, at) == elem
  {
    hide RawType, RawSize, Flags, Valid;
    PackedFlags(count, kind);
    assert (0x20 + pad) % 16 == pad && (0x20 + pad) / 16 == 2;
    if count > 0 {
      Divides(count, elem);
    }
  }

  lemma ArrayReads(pre: seq<byte>, c: Chunk, post: seq<byte>)
    requires Storable(c) && c.ArrayChunk?
    ensures var b := pre + (ChunkBytes(c) + post);
      Valid(b, |pre|) && Reads(b, |pre|, c) && RawType(b, |pre|) != BUFFER_END
      && Next(b, |pre|) == |pre| + |ChunkBytes(c)|
  {
    hide RawType, RawSize, Flags, Header, Zeros, ArrayValid, ElemType, ElemCount, ElemSize;
    var pad := Padding(|c.data|);
    ItemReads(pre, 0x20 + pad, c.count, c.elemKind, c.data, post);
    ArrayHeader(pre + (ChunkBytes(c) + post), |pre|, c.elemKind, c.count, c.elemSize, pad);
  }

  lemma MulAtLeast(k: int, c: int)
    requires k >= 1 && c > 0
    ensures k * c >= c
  {
  }

  lemma DivUnique(c: int, q: int, q': int, r': int)
    requires c > 0 && 0 <= r' < c && q * c == q' * c + r'
    ensures q' == q && r' == 0
  {
    assert (q - q') * c == r' && (q' - q) * c == -r';
    if q > q' {
      MulAtLeast(q - q', c);
    } else if q < q' {
      MulAtLeast(q' - q, c);
    }
  }

  lemma Divides(count: int, elem: int)
    requires count > 0 && elem > 0
    ensures count * elem % count == 0 && count * elem / count == elem && count <= count * elem
  {
    var x := elem * count;
    assert count * elem == x;
    DivUnique(count, elem, x / count, x % count);
    MulAtLeast(elem, count);
  }

  lemma EndReads(pre: seq<byte>)
    ensures var b := pre + Header(BUFFER_END, 0, 0, 0); Valid(b, |pre|) && RawType(b, |pre|) == BUFFER_END
  {
    hide RawType, RawSize, Flags, Header;
    HeaderReads(pre, [], BUFFER_END, 0, 0, 0);
    assert Header(BUFFER_END, 0, 0, 0) + [] == Header(BUFFER_END, 0, 0, 0);
  }

  lemma WalkStep(b: seq<byte>, at: int)
    requires Valid(b, at) && RawType(b, at) != BUFFER_END
    ensures Walk(b, at) == [at] + Walk(b, Next(b, at)) && WalkEnd(b, at) == WalkEnd(b, Next(b, at))
  {
  }

  lemma WalkStop(b: seq<byte>, at: int)
    requires Valid(b, at) && RawType(b, at) == BUFFER_END
    ensures Walk(b, at) == [] && WalkEnd(b, at) == at
  {
  }

  lemma ChunkReads(pre: seq<byte>, c: Chunk, post: seq<byte>)
    requires Storable(c)
    ensures var b := pre + (ChunkBytes(c) + post);
      Valid(b, |pre|) && Reads(b, |pre|, c) && RawType(b, |pre|) != BUFFER_END
      && Next(b, |pre|) == |pre| + |ChunkBytes(c)|
  {
    hide Reads, Storable, Valid, RawType, Next;
    if c.StructChunk? {
      StructReads(pre, c, post);
    } else {
      ArrayReads(pre, c, post);
    }
  }

  /** Whatever stands before them, the chunks of a layout are read back in order, each as it was
      written, and the walk stops at the end marker. */
  lemma {:induction false} LayoutReads(pre: seq<byte>, cs: seq<Chunk>)
    requires forall i :: 0 <= i < |cs| ==> Storable(cs[i])
    ensures var b := pre + Layout(cs); var w := Walk(b, |pre|); var end := WalkEnd(b, |pre|);
      && |w| == |cs| && (forall i :: 0 <= i < |cs| ==> Reads(b, w[i], cs[i]))
      && Valid(b, end) && RawType(b, end) == BUFFER_END && end + HEADER == |b|
    decreases cs
  {
    hide Reads, ChunkBytes, Storable, Valid, RawType, Header, Next, Walk, WalkEnd;
    var b := pre + Layout(cs);
    if cs == [] {
      EndReads(pre);
      WalkStop(b, |pre|);
    } else {
      var first, rest := ChunkBytes(cs[0]), cs[1..];
      ChunkReads(pre, cs[0], Layout(rest));
      WalkStep(b, |pre|);
      assert b == (pre + first) + Layout(rest);
      LayoutReads(pre + first, rest);
    }
  }

  // ---------- What older kernels wrote ----------

  /** The structures in arrays from before padding was recorded, by the widths of their fields. */
  function StructSize(kind: int): (n: nat)
    ensures n == LegacyElemSize(kind)
  {
    if kind == 0x30 then 4 + 16                                // dyld_uuid_info_32
    else if kind == 0x31 then 8 + 16                           // dyld_uuid_info_64
    else if kind == 0x90A || kind == 0x90C then 4 + 4          // stack_snapshot_frame32
    else if kind == 0x90B || kind == 0x90D then 8 + 8          // stack_snapshot_frame64
    else if kind == 0x907 then 4                               // int32_t
    else if kind == 0x941 then 4 * 8 + 2 * 4 + 2 * 2 + 4 * 1   // thread_delta_snapshot_v2
    else if kind == 0x81A then 8                               // uint64_t
    else 0
  }

  lemma PaddedDivision(count: int, elem: int, pad: int)
    requires count > 0 && elem > 0 && pad >= 0
    ensures count <= (count * elem + pad) / elem && (count * elem + pad) % count <= pad
  {
    var x := count * elem + pad;
    var q, q', r' := x / elem, x / count, x % count;
    assert (q + 1) * elem == q * elem + elem && (q' + 1) * count == q' * count + count;
    assert elem * count == count * elem && x == q' * count + r';
    if q < count {
      MulOrder(q + 1, count, elem);
    }
    if q' >= elem {
      MulOrder(elem, q', count);
    } else {
      MulOrder(q' + 1, elem, count);
    }
  }

  /** Arrays of those structures, padded without a record of it, are read back all the same. */
  lemma LegacyArrayReads(pre: seq<byte>, kind: int, count: int, data: seq<byte>, post: seq<byte>)
    requires 0 <= kind < 0x1_0000_0000 && StructSize(kind) != 0 && 0 <= count < 0x1_0000_0000
    requires |data| == count * StructSize(kind) && |data| + Padding(|data|) < 0x1_0000_0000
    ensures var pad := Padding(|data|);
      var b := pre + (Header(0x11, |data| + pad, count, kind) + data + Zeros(pad) + post);
      && ArrayValid(b, |pre|) && ElemType(b, |pre|) == kind && ElemCount(b, |pre|) == count
      && ElemSize(b, |pre|) == StructSize(kind)
      && b[|pre| + 16..|pre| + 16 + |data|] == data
  {
    hide RawType, RawSize, Flags, Header, Zeros, LegacyElemSize, StructSize;
    ItemReads(pre, 0x11, count, kind, data, post);
    PackedFlags(count, kind);
    if count > 0 {
      PaddedDivision(count, LegacyElemSize(kind), Padding(|data|));
    }
  }

  /** Of no other kind is such an array taken for valid, unless it is empty. */
  lemma UnknownArray(b: seq<byte>, at: int)
    requires Valid(b, at) && RawType(b, at) == 0x11 && ElemCount(b, at) > 0
    requires StructSize(ElemType(b, at)) == 0
    ensures !ArrayValid(b, at)
  {
    hide LegacyElemSize, StructSize;
    assert StructSize(ElemType(b, at)) == LegacyElemSize(ElemType(b, at));
  }

  /** The flags of a container are its identifier; none of their bits is taken for padding. */
  lemma ContainerReads(pre: seq<byte>, lo: int, hi: int, data: seq<byte>, post: seq<byte>)
    requires 0 <= lo < 0x1_0000_0000 && 0 <= hi < 0x1_0000_0000 && |data| % 16 == 0 && |data| < 0x1_0000_0000
    ensures var b := pre + (Header(0x13, |data|, lo, hi) + data + post);
      Valid(b, |pre|) && ItemAt(b, |pre|) == Item(0x13, data) && Flags(b, |pre|) == lo + hi * 0x1_0000_0000
  {
    hide RawType, RawSize, Flags, Header;
    ItemReads(pre, 0x13, lo, hi, data, post);
    assert Padding(|data|) == 0 && data + Zeros(0) == data;
    var h := Header(0x13, |data|, lo, hi);
    assert h + data + Zeros(0) == h + data;
  }

  /** An item from before padding was recorded and a modern item of the same kind and stored size are
      told apart: the one reads as the old structure, the other as what was written. */
  lemma LegacyToldApart(kind: int, legacy: int, data: seq<byte>, flags: int)
    requires (kind == 0x906 && legacy == 0x68) || (kind == 0x908 && legacy == 24)
    requires |data| + Padding(|data|) == legacy + Padding(legacy)
    requires PaddingFlag(flags) == 0 && !HasPaddingFlag(flags)
    ensures SizeOf(kind, |data| + Padding(|data|), flags) == legacy
    ensures SizeOf(kind, |data| + Padding(|data|), Padding(|data|) + 0x80) == |data|
  {
    var pad := Padding(|data|);
    assert (pad + 0x80) % 16 == pad && (pad + 0x80) / 0x80 % 2 == 1;
  }
}
