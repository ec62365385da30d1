/** Walking the load commands of a Mach-O header, and the sections of a segment. */
module MachHeader {

  const SIZEOF_HEADER := 32
  const SIZEOF_SEGMENT := 72
  const SIZEOF_SECTION := 80
  const LC_SEGMENT_KERNEL := 0x19
  const NULL := 0

  /** What the walk reads of a load command. */
  datatype Command = Command(cmd: int, cmdsize: int)

  /** A header at `base` and the commands that can be read, by address. */
  datatype Image = Image(base: int, ncmds: nat, memory: map<int, Command>)

  /** The address of command `k`: each command says how far away the next one is. */
  function Addr(im: Image, k: nat): int {
    if k == 0 then im.base + SIZEOF_HEADER
    else
      var a := Addr(im, k - 1);
      if a in im.memory then a + im.memory[a].cmdsize else a
  }

  /** The commands tile their area: each is readable and takes up space. */
  ghost predicate WellFormed(im: Image) {
    && im.base > 0
    && forall k: nat :: k < im.ncmds ==> Addr(im, k) in im.memory && im.memory[Addr(im, k)].cmdsize > 0
  }

  predicate IsSegment(im: Image, a: int) {
    a in im.memory && im.memory[a].cmd == LC_SEGMENT_KERNEL
  }

  /** The segment commands from command `k` on, in file order. */
  function Segments(im: Image, k: nat): seq<int>
    decreases im.ncmds - k
  {
    if k >= im.ncmds then []
    else (if IsSegment(im, Addr(im, k)) then [Addr(im, k)] else []) + Segments(im, k + 1)
  }

  function Head(s: seq<int>): int { if s == [] then NULL else s[0] }

  lemma {:induction false} AddrIncreases(im: Image, j: nat, k: nat)
    requires WellFormed(im) && j <= k <= im.ncmds
    ensures Addr(im, j) + (k - j) <= Addr(im, k)
  {
    if j == k {
    } else {
      AddrIncreases(im, j, k - 1);
      assert Addr(im, k - 1) in im.memory;
    }
  }

  /** The search both routines end with: the first segment from command `i`, at `a`, on. */
  method SeekSegment(im: Image, i: nat, a: int) returns (seg: int)
    requires WellFormed(im) && i <= im.ncmds && a == Addr(im, i)
    ensures seg == Head(Segments(im, i))
  {
    var k, sgp := i, a;
    while k < im.ncmds
      invariant i <= k <= im.ncmds && sgp == Addr(im, k) && Segments(im, k) == Segments(im, i)
    {
      assert Addr(im, k) in im.memory;
      if im.memory[sgp].cmd == LC_SEGMENT_KERNEL {
        return sgp;
      }
      sgp := sgp + im.memory[sgp].cmdsize;
      k := k + 1;
    }
    return NULL;
  }

  method FirstSegment(im: Image) returns (seg: int)
    requires WellFormed(im)
    ensures seg == Head(Segments(im, 0))
  {
    seg := SeekSegment(im, 0, im.base + SIZEOF_HEADER);
  }

  /** The segment after `seg`, which is command `j` of this header. */
  method NextSegment(im: Image, seg: int, ghost j: nat) returns (next: int)
    requires WellFormed(im) && j < im.ncmds && seg == Addr(im, j)
    ensures next == Head(Segments(im, j + 1))
  {
    var i, sgp := 0, im.base + SIZEOF_HEADER;
    while sgp != seg && i < im.ncmds
      invariant 0 <= i <= j && sgp == Addr(im, i)
      decreases j - i
    {
      AddrIncreases(im, i, j);
      assert Addr(im, i) in im.memory;
      sgp := sgp + im.memory[sgp].cmdsize;
      i := i + 1;
    }
    AddrIncreases(im, i, j);
    assert Addr(im, i) in im.memory;
    i := i + 1;
    sgp := sgp + im.memory[sgp].cmdsize;
    next := SeekSegment(im, i, sgp);
  }

  /** The `n`th segment is some command `j`, and the segments after it are those from `j + 1` on. */
  lemma {:induction false} SegmentsGoOn(im: Image, from: nat, n: nat) returns (j: nat)
    requires WellFormed(im) && n < |Segments(im, from)|
    ensures from <= j < im.ncmds && Segments(im, from)[n] == Addr(im, j) && IsSegment(im, Addr(im, j))
    ensures Segments(im, j + 1) == Segments(im, from)[n + 1..]
    decreases im.ncmds - from
  {
    if !IsSegment(im, Addr(im, from)) {
      j := SegmentsGoOn(im, from + 1, n);
    } else if n > 0 {
      j := SegmentsGoOn(im, from + 1, n - 1);
      assert Segments(im, from)[1..] == Segments(im, from + 1);
    } else {
      j := from;
    }
  }

  /** The list is exactly the segment commands, without repetition. */
  lemma {:induction false} SegmentsAreAll(im: Image, k: nat, a: int)
    requires WellFormed(im) && k <= im.ncmds
    ensures a in Segments(im, k) <==> exists j: nat :: k <= j < im.ncmds && Addr(im, j) == a && IsSegment(im, a)
    ensures forall i, j :: 0 <= i < j < |Segments(im, k)| ==> Segments(im, k)[i] < Segments(im, k)[j]
    ensures forall i :: 0 <= i < |Segments(im, k)| ==> Segments(im, k)[i] >= Addr(im, k) > 0
    decreases im.ncmds - k
  {
    AddrIncreases(im, 0, k);
    if k == im.ncmds {
    } else {
      AddrIncreases(im, k, k + 1);
      SegmentsAreAll(im, k + 1, a);
    }
  }

  /** Asking for the first segment and then for the next until there is none lists every segment
      once, in file order. */
  method ListSegments(im: Image) returns (segs: seq<int>)
    requires WellFormed(im)
    ensures segs == Segments(im, 0)
  {
    hide Segments, WellFormed, Addr, IsSegment;
    ghost var all := Segments(im, 0);
    segs := [];
    var seg := FirstSegment(im);
    assert all[0..] == all;
    while seg != NULL
      invariant |segs| <= |all| && segs == all[..|segs|] && seg == Head(all[|segs|..])
      decreases |all| - |segs|
    {
      ghost var j := SegmentsGoOn(im, 0, |segs|);
      segs := segs + [seg];
      seg := NextSegment(im, seg, j);
    }
    SegmentsAreAll(im, 0, NULL);
  }

  // ---------- A header and its commands in memory ----------

  /** Commands one after the other from address `a` on. */
  function Tiled(a: int, cmds: seq<Command>): map<int, Command>
    decreases cmds
  {
    if cmds == [] then map[] else Tiled(a + cmds[0].cmdsize, cmds[1..])[a := cmds[0]]
  }

  /** A 64-bit header at `base`, followed by its commands. */
  function Headed(base: int, cmds: seq<Command>): Image {
    Image(base, |cmds|, Tiled(base + 32, cmds))
  }

  /** The addresses of the 64-bit segment commands among them. */
  function SegmentsFrom(a: int, cmds: seq<Command>): seq<int>
    decreases cmds
  {
    if cmds == [] then []
    else (if cmds[0].cmd == 0x19 then [a] else []) + SegmentsFrom(a + cmds[0].cmdsize, cmds[1..])
  }

  function Offset(cmds: seq<Command>, k: nat): int
    requires k <= |cmds|
  {
    if k == 0 then 0 else cmds[0].cmdsize + Offset(cmds[1..], k - 1)
  }

  ghost predicate Sized(cmds: seq<Command>) {
    forall i :: 0 <= i < |cmds| ==> cmds[i].cmdsize > 0
  }

  lemma {:induction false} TiledAt(a: int, cmds: seq<Command>, k: nat)
    requires Sized(cmds) && k < |cmds|
    ensures Offset(cmds, k) >= k && Offset(cmds, k + 1) == Offset(cmds, k) + cmds[k].cmdsize
    ensures a + Offset(cmds, k) in Tiled(a, cmds) && Tiled(a, cmds)[a + Offset(cmds, k)] == cmds[k]
    decreases cmds
  {
    if k == 0 {
    } else {
      TiledAt(a + cmds[0].cmdsize, cmds[1..], k - 1);
    }
  }

  lemma {:induction false} AddrTiled(base: int, cmds: seq<Command>, k: nat)
    requires Sized(cmds) && k <= |cmds|
    ensures Addr(Headed(base, cmds), k) == base + 32 + Offset(cmds, k)
  {
    if k == 0 {
    } else {
      AddrTiled(base, cmds, k - 1);
      TiledAt(base + 32, cmds, k - 1);
    }
  }

  lemma {:induction false} SegmentsTiled(base: int, cmds: seq<Command>, k: nat)
    requires Sized(cmds) && k <= |cmds|
    ensures Segments(Headed(base, cmds), k) == SegmentsFrom(base + 32 + Offset(cmds, k), cmds[k..])
    decreases |cmds| - k
  {
    hide Addr, Offset, Tiled;
    if k == |cmds| {
    } else {
      SegmentsTiled(base, cmds, k + 1);
      AddrTiled(base, cmds, k);
      TiledAt(base + 32, cmds, k);
      assert cmds[k..][1..] == cmds[k + 1..];
    }
  }

  /** Whatever commands stand behind a header, the routines find the segments where they stand. */
  lemma HeaderReads(base: int, cmds: seq<Command>)
    requires base > 0 && Sized(cmds)
    ensures WellFormed(Headed(base, cmds))
    ensures Segments(Headed(base, cmds), 0) == SegmentsFrom(base + 32, cmds)
  {
    hide Addr, Segments, Tiled;
    SegmentsTiled(base, cmds, 0);
    assert cmds[0..] == cmds;
    var im := Headed(base, cmds);
    forall k: nat | k < im.ncmds ensures Addr(im, k) in im.memory && im.memory[Addr(im, k)].cmdsize > 0 {
      AddrTiled(base, cmds, k);
      TiledAt(base + 32, cmds, k);
    }
  }

  // ---------- Sections ----------

  function FirstSection(segment: int, nsects: int): int {
    if segment == NULL || nsects == 0 then NULL else segment + SIZEOF_SEGMENT
  }

  function NextSection(segment: int, nsects: int, sp: int): int {
    if (sp - FirstSection(segment, nsects)) / SIZEOF_SECTION + 1 >= nsects then NULL else sp + SIZEOF_SECTION
  }

  function Ahead(end: int, sp: int): nat { if sp < end then end - sp else 0 }

  /** The sections as the two routines list them, from `sp` on. */
  function Sections(segment: int, nsects: int, sp: int): seq<int>
    requires segment > 0 && (sp == NULL || FirstSection(segment, nsects) <= sp)
    decreases if sp == NULL then 0 else 1 + Ahead(segment + SIZEOF_SEGMENT + nsects * SIZEOF_SECTION, sp)
  {
    if sp == NULL || nsects <= 0 then [] else [sp] + Sections(segment, nsects, NextSection(segment, nsects, sp))
  }

  lemma {:induction false} SectionsFrom(segment: int, nsects: int, k: nat)
    requires segment > 0 && 0 <= k < nsects
    ensures var first := segment + SIZEOF_SEGMENT;
      Sections(segment, nsects, first + k * SIZEOF_SECTION)
      == seq(nsects - k, i requires 0 <= i < nsects - k => first + (k + i) * SIZEOF_SECTION)
    decreases nsects - k
  {
    if k + 1 == nsects {
    } else {
      SectionsFrom(segment, nsects, k + 1);
    }
  }

  /** From the first one on they list the sections of 80 bytes that follow the segment command of 72. */
  lemma SectionsAre(segment: int, nsects: int)
    requires segment > 0 && nsects >= 0
    ensures Sections(segment, nsects, FirstSection(segment, nsects))
         == seq(nsects, i requires 0 <= i < nsects => segment + 72 + i * 80)
  {
    if nsects == 0 {
    } else {
      SectionsFrom(segment, nsects, 0);
    }
  }
}
