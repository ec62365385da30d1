/** The MAC policy list of `mac_base.c` as a value: registration, unregistration and what every
  history of them keeps.
 */
module PolicyList {
  import opened Errno
  import MacLabel

  const CHUNK := 8
  const MAX_SLOTS := MacLabel.MAX_SLOTS

  /** A new chunk of the array. */
  const NEW_CHUNK: seq<Entry> := [Empty, Empty, Empty, Empty, Empty, Empty, Empty, Empty]

  /** The parts of a policy's configuration that registration looks at. */
  datatype Conf = Conf(name: string, notLate: bool, unloadOk: bool, wantsSlot: bool)

  /** An entry of the array: NULL, or a policy and the label slot written to its `mpc_field_off`. */
  datatype Entry = Empty | Loaded(conf: Conf, slot: int)

  datatype Registry = Registry(entries: seq<Entry>, numloaded: int, max: int, maxindex: int,
                               staticmax: int, chunks: int, freehint: int, freeSlots: set<int>, late: bool)

  datatype Outcome = Done(handle: int) | Error(errno: int)

  // ---------- Counting entries ----------

  function Count(s: seq<Entry>): (n: nat)
    ensures n <= |s|
  {
    if s == [] then 0 else Count(s[..|s| - 1]) + if s[|s| - 1].Loaded? then 1 else 0
  }

  lemma {:induction false} CountAppend(a: seq<Entry>, b: seq<Entry>)
    ensures Count(a + b) == Count(a) + Count(b)
  {
    if b == [] {
      assert a + b == a;
    } else {
      CountAppend(a, b[..|b| - 1]);
      assert (a + b)[..|a + b| - 1] == a + b[..|b| - 1];
    }
  }

  lemma CountUpdate(s: seq<Entry>, i: int, e: Entry)
    requires 0 <= i < |s|
    ensures Count(s[i := e]) == Count(s) - (if s[i].Loaded? then 1 else 0) + if e.Loaded? then 1 else 0
  {
    assert s == s[..i] + [s[i]] + s[i + 1..] && s[i := e] == s[..i] + [e] + s[i + 1..];
    CountAppend(s[..i] + [s[i]], s[i + 1..]);
    CountAppend(s[..i] + [e], s[i + 1..]);
    CountAppend(s[..i], [s[i]]);
    CountAppend(s[..i], [e]);
    assert [s[i]][..0] == [] && [e][..0] == [];
  }

  /** A list is full exactly when its count says so. */
  lemma {:induction false} CountFull(s: seq<Entry>)
    ensures Count(s) == |s| <==> forall i :: 0 <= i < |s| ==> s[i].Loaded?
    ensures Count(s) == 0 <==> forall i :: 0 <= i < |s| ==> s[i].Empty?
  {
    if s == [] {
    } else {
      CountFull(s[..|s| - 1]);
      assert forall i :: 0 <= i < |s| - 1 ==> s[i] == s[..|s| - 1][i];
    }
  }

  /** With the first `k` entries occupied, the count passes `k` exactly if a later one is occupied. */
  lemma {:induction false} CountBeyond(s: seq<Entry>, k: int)
    requires 0 <= k <= |s| && forall i :: 0 <= i < k ==> s[i].Loaded?
    ensures Count(s) >= k
    ensures Count(s) <= k <==> forall i :: k <= i < |s| ==> s[i].Empty?
  {
    CountFull(s);
    if k == |s| {
    } else {
      CountBeyond(s[..|s| - 1], k);
      assert forall i :: 0 <= i < |s| - 1 ==> s[i] == s[..|s| - 1][i];
    }
  }

  // ---------- The slot mask, as the set of its one bits ----------

  /** `ffs`: one more than the lowest set bit from `i` on, 0 for none. */
  function Ffs(mask: set<int>, i: int := 0): (n: int)
    requires 0 <= i <= 32
    ensures n == 0 <==> forall j :: i <= j < 32 ==> j !in mask
    ensures n != 0 ==> i < n <= 32 && n - 1 in mask && forall j :: i <= j < n - 1 ==> j !in mask
    decreases 32 - i
  {
    if i == 32 then 0 else if i in mask then i + 1 else Ffs(mask, i + 1)
  }

  lemma FfsNone(mask: set<int>)
    requires forall x :: x in mask ==> 0 <= x < 32
    requires Ffs(mask) == 0
    ensures mask == {}
  {
    forall x ensures x !in mask {
      if 0 <= x < 32 {
        assert x !in mask;
      }
    }
  }

  // ---------- The invariant ----------

  predicate NameTaken(s: seq<Entry>, name: string) {
    exists i :: 0 <= i < |s| && s[i].Loaded? && s[i].conf.name == name
  }

  ghost predicate DistinctNames(s: seq<Entry>) {
    forall i, j :: 0 <= i < j < |s| && s[i].Loaded? && s[j].Loaded? ==> s[i].conf.name != s[j].conf.name
  }

  predicate Owns(e: Entry) {
    e.Loaded? && e.conf.wantsSlot
  }

  /** The owned label slots are distinct, and with the free ones they are all there are. */
  ghost predicate SlotsOk(s: seq<Entry>, free: set<int>) {
    && (forall x :: x in free ==> 0 <= x < MAX_SLOTS)
    && (forall i :: 0 <= i < |s| && Owns(s[i]) ==> 0 <= s[i].slot < MAX_SLOTS && s[i].slot !in free)
    && (forall i, j :: 0 <= i < j < |s| && Owns(s[i]) && Owns(s[j]) ==> s[i].slot != s[j].slot)
    && (forall x :: 0 <= x < MAX_SLOTS && x !in free ==> exists i :: 0 <= i < |s| && Owns(s[i]) && s[i].slot == x)
  }

  ghost predicate CountersOk(g: Registry) {
    && 1 <= g.chunks && g.max == CHUNK * g.chunks && |g.entries| == g.max
    && g.numloaded == Count(g.entries)
    && 0 <= g.maxindex < g.max
    && 0 <= g.staticmax <= g.freehint <= g.max
    && (forall i :: 0 <= i < g.freehint ==> g.entries[i].Loaded?)
    && (forall i :: 0 <= i < g.max && g.entries[i].Loaded? ==> i <= g.maxindex)
    && (!g.late ==> g.numloaded == g.staticmax)
  }

  ghost predicate Inv(g: Registry) {
    CountersOk(g) && DistinctNames(g.entries) && SlotsOk(g.entries, g.freeSlots)
  }

  /** `mac_policy_init`. */
  function Initial(): (g: Registry)
    ensures Inv(g)
  {
    CountFull(NEW_CHUNK);
    Registry(NEW_CHUNK, 0, CHUNK, 0, 0, 1, 0, {0, 1, 2, 3, 4, 5, 6}, false)
  }

  /** The unlocked test of the walk: a dynamic policy is loaded exactly when the counters say so. */
  lemma AllStatic(g: Registry)
    requires CountersOk(g)
    ensures g.numloaded >= g.staticmax
    ensures g.numloaded <= g.staticmax <==> forall i :: g.staticmax <= i < |g.entries| ==> g.entries[i].Empty?
  {
    CountBeyond(g.entries, g.staticmax);
  }

  // ---------- Registration ----------

  function Grow(g: Registry): Registry {
    g.(entries := g.entries + NEW_CHUNK, max := g.max + CHUNK, chunks := g.chunks + 1)
  }

  function Roomy(g: Registry): Registry {
    if g.numloaded >= g.max then Grow(g) else g
  }

  lemma GrowSlots(s: seq<Entry>, more: seq<Entry>, free: set<int>)
    requires SlotsOk(s, free) && forall i :: 0 <= i < |more| ==> more[i].Empty?
    ensures SlotsOk(s + more, free)
  {
    forall x | 0 <= x < MAX_SLOTS && x !in free
      ensures exists i :: 0 <= i < |s + more| && Owns((s + more)[i]) && (s + more)[i].slot == x
    {
      var i :| 0 <= i < |s| && Owns(s[i]) && s[i].slot == x;
      assert (s + more)[i] == s[i];
    }
  }

  lemma RoomyInv(g: Registry)
    requires Inv(g)
    ensures Inv(Roomy(g)) && Roomy(g).numloaded < Roomy(g).max
    ensures forall name :: NameTaken(Roomy(g).entries, name) <==> NameTaken(g.entries, name)
  {
    hide SlotsOk;
    CountFull(NEW_CHUNK);
    CountAppend(g.entries, NEW_CHUNK);
    GrowSlots(g.entries, NEW_CHUNK, g.freeSlots);
    assert forall i :: 0 <= i < |g.entries| ==> Roomy(g).entries[i] == g.entries[i];
  }

  /** The least free handle. */
  ghost predicate LeastFree(s: seq<Entry>, h: int) {
    0 <= h < |s| && s[h].Empty? && forall i :: 0 <= i < h ==> s[i].Loaded?
  }

  /** The list after `conf` was placed at `h` with label slot `slot` (-1 for none). */
  function Place(g: Registry, conf: Conf, h: int, slot: int): Registry
    requires 0 <= h < |g.entries|
  {
    g.(entries := g.entries[h := Loaded(conf, slot)],
       freehint := h + 1,
       staticmax := if !g.late || (!conf.unloadOk && h == g.staticmax) then g.staticmax + 1 else g.staticmax,
       maxindex := if h > g.maxindex then h else g.maxindex,
       numloaded := g.numloaded + 1,
       freeSlots := if conf.wantsSlot then g.freeSlots - {slot} else g.freeSlots)
  }

  /** What registering `conf` does: the new list and the outcome. */
  ghost predicate Registers(g: Registry, conf: Conf, g': Registry, o: Outcome) {
    var r := Roomy(g);
    if g.late && conf.notLate then g' == g && o == Error(EPERM)
    else if NameTaken(g.entries, conf.name) then g' == r && o == Error(EEXIST)
    else if conf.wantsSlot && g.freeSlots == {} then g' == r && o == Error(ENOMEM)
    else
      && o.Done? && LeastFree(r.entries, o.handle)
      && exists slot :: g' == Place(r, conf, o.handle, slot) && LeastSlot(g.freeSlots, conf, slot)
  }

  ghost predicate LeastSlot(free: set<int>, conf: Conf, slot: int) {
    if conf.wantsSlot then slot in free && forall x :: x in free ==> slot <= x else slot == -1
  }

  lemma PlaceCounters(g: Registry, conf: Conf, h: int, slot: int)
    requires CountersOk(g) && LeastFree(g.entries, h)
    ensures CountersOk(Place(g, conf, h, slot))
  {
    CountUpdate(g.entries, h, Loaded(conf, slot));
    AllStatic(g);
  }

  lemma PlaceSlots(s: seq<Entry>, free: set<int>, conf: Conf, h: int, slot: int)
    requires SlotsOk(s, free) && 0 <= h < |s| && s[h].Empty? && LeastSlot(free, conf, slot)
    ensures SlotsOk(s[h := Loaded(conf, slot)], if conf.wantsSlot then free - {slot} else free)
  {
    var s', free' := s[h := Loaded(conf, slot)], if conf.wantsSlot then free - {slot} else free;
    forall x | 0 <= x < MAX_SLOTS && x !in free'
      ensures exists i :: 0 <= i < |s'| && Owns(s'[i]) && s'[i].slot == x
    {
      if x in free {
        assert Owns(s'[h]) && s'[h].slot == x;
      } else {
        var i :| 0 <= i < |s| && Owns(s[i]) && s[i].slot == x;
        assert s'[i] == s[i];
      }
    }
  }

  lemma PlaceNames(s: seq<Entry>, conf: Conf, h: int, slot: int)
    requires DistinctNames(s) && !NameTaken(s, conf.name) && 0 <= h < |s|
    ensures DistinctNames(s[h := Loaded(conf, slot)])
  {
  }

  /** Registration keeps the invariant, whatever the policy and the outcome. */
  lemma RegisterInv(g: Registry, conf: Conf, g': Registry, o: Outcome)
    requires Inv(g) && Registers(g, conf, g', o)
    ensures Inv(g')
  {
    RoomyInv(g);
    if o.Done? {
      var r := Roomy(g);
      var slot :| g' == Place(r, conf, o.handle, slot) && LeastSlot(g.freeSlots, conf, slot);
      PlaceCounters(r, conf, o.handle, slot);
      PlaceSlots(r.entries, r.freeSlots, conf, o.handle, slot);
      PlaceNames(r.entries, conf, o.handle, slot);
    }
  }

  /** In every well-kept list the search for a handle succeeds from the hint on. */
  lemma HandleExists(g: Registry) returns (h: int)
    requires CountersOk(g) && g.numloaded < g.max
    ensures g.freehint <= h && LeastFree(g.entries, h)
  {
    CountFull(g.entries);
    h := g.freehint;
    while h < g.max && g.entries[h].Loaded?
      invariant g.freehint <= h <= g.max && forall i :: 0 <= i < h ==> g.entries[i].Loaded?
    {
      h := h + 1;
    }
  }

  // Registration, said without the list it builds.

  /** When it fails and how: late, then by name, then for want of a slot; nothing but room is gained. */
  lemma RegisterFails(g: Registry, conf: Conf, g': Registry, o: Outcome)
    requires Inv(g) && Registers(g, conf, g', o)
    ensures o == Error(1) <==> g.late && conf.notLate
    ensures o == Error(17) <==> !(g.late && conf.notLate) && NameTaken(g.entries, conf.name)
    ensures o == Error(12) <==>
      !(g.late && conf.notLate) && !NameTaken(g.entries, conf.name) && conf.wantsSlot && g.freeSlots == {}
    ensures o.Error? ==> o.errno in {1, 17, 12} && g' == g.(entries := g'.entries, max := g'.max, chunks := g'.chunks)
    ensures o.Error? ==> g.entries <= g'.entries && forall i :: |g.entries| <= i < |g'.entries| ==> g'.entries[i].Empty?
  {
    hide Inv, NameTaken;
  }

  lemma LeastHandle(g: Registry, h: int)
    requires CountersOk(g) && LeastFree(Roomy(g).entries, h)
    ensures h <= |g.entries| && (h < |g.entries| ==> g.entries[h].Empty?)
    ensures forall i :: 0 <= i < h ==> g.entries[i].Loaded?
    ensures !g.late ==> h == g.staticmax
  {
    hide Count;
    var r := Roomy(g);
    assert forall i :: 0 <= i < |g.entries| ==> r.entries[i] == g.entries[i];
    assert |r.entries| > |g.entries| ==> r.entries[|g.entries|].Empty?;
    AllStatic(g);
    assert !g.late && g.staticmax < |g.entries| ==> g.entries[g.staticmax].Empty?;
  }

  /** Otherwise the policy goes to the least free handle, counting those beyond the array, and takes the
      least free slot if it wants one; no other entry changes. */
  lemma RegisterPlaces(g: Registry, conf: Conf, g': Registry, h: int)
    requires Inv(g) && Registers(g, conf, g', Done(h))
    ensures 0 <= h < |g'.entries| && |g.entries| <= |g'.entries|
    ensures h <= |g.entries| && (h < |g.entries| ==> g.entries[h].Empty?)
    ensures forall i :: 0 <= i < h ==> g.entries[i].Loaded?
    ensures forall i :: 0 <= i < |g'.entries| && i != h ==>
      g'.entries[i] == if i < |g.entries| then g.entries[i] else Empty
    ensures g'.entries[h].Loaded? && g'.entries[h].conf == conf
    ensures SlotSays(g.freeSlots, conf, g'.freeSlots, g'.entries[h].slot)
  {
    hide DistinctNames, SlotsOk, Count, CountersOk, NameTaken;
    LeastHandle(g, h);
    var r := Roomy(g);
    assert forall i :: 0 <= i < |r.entries| ==> r.entries[i] == if i < |g.entries| then g.entries[i] else Empty;
  }

  /** It becomes static before the boot ends, and after it exactly if it refuses to be unloaded and lands
      right behind the static policies. */
  lemma RegisterCounts(g: Registry, conf: Conf, g': Registry, h: int)
    requires Inv(g) && Registers(g, conf, g', Done(h))
    ensures g'.numloaded == g.numloaded + 1 && g'.freehint == h + 1 && g'.late == g.late
    ensures g'.maxindex == if h > g.maxindex then h else g.maxindex
    ensures !g.late ==> h == g.staticmax && g'.staticmax == h + 1
    ensures g.late && h == g.staticmax && !conf.unloadOk ==> g'.staticmax == h + 1
    ensures g.late && (h != g.staticmax || conf.unloadOk) ==> g'.staticmax == g.staticmax
  {
    hide DistinctNames, SlotsOk, Count, CountersOk, NameTaken;
    LeastHandle(g, h);
  }

  /** The lowest free slot is taken, if one is wanted. */
  ghost predicate SlotSays(free: set<int>, conf: Conf, free': set<int>, slot: int) {
    if conf.wantsSlot then
      slot in free && slot !in free' && (forall x :: x in free ==> slot <= x) && free == free' + {slot}
    else
      free' == free
  }

  // ---------- Unregistration ----------

  /** The counter `maxindex` is unsigned. */
  function Decrement(x: int): int {
    if x == 0 then 0xFFFF_FFFF else x - 1
  }

  /** The list after the policy at `h` was taken out. */
  function Remove(g: Registry, h: int): Registry
    requires 0 <= h < |g.entries| && g.entries[h].Loaded?
  {
    g.(entries := g.entries[h := Empty],
       freehint := if h < g.freehint && h >= g.staticmax then h else g.freehint,
       maxindex := if h == g.maxindex then Decrement(g.maxindex) else g.maxindex,
       numloaded := g.numloaded - 1,
       freeSlots := if g.entries[h].conf.wantsSlot then g.freeSlots + {g.entries[h].slot} else g.freeSlots)
  }

  function Unregister(g: Registry, h: int): (Registry, Outcome)
    requires 0 <= h < |g.entries| && g.entries[h].Loaded?
  {
    if !g.entries[h].conf.unloadOk then (g, Error(EBUSY)) else (Remove(g, h), Done(h))
  }

  lemma RemoveSlots(s: seq<Entry>, free: set<int>, h: int)
    requires SlotsOk(s, free) && 0 <= h < |s| && s[h].Loaded?
    ensures SlotsOk(s[h := Empty], if s[h].conf.wantsSlot then free + {s[h].slot} else free)
  {
    var s', free' := s[h := Empty], if s[h].conf.wantsSlot then free + {s[h].slot} else free;
    forall x | 0 <= x < MAX_SLOTS && x !in free'
      ensures exists i :: 0 <= i < |s'| && Owns(s'[i]) && s'[i].slot == x
    {
      var i :| 0 <= i < |s| && Owns(s[i]) && s[i].slot == x;
      assert s'[i] == s[i];
    }
  }

  lemma RemoveInv(g: Registry, h: int)
    requires Inv(g) && g.staticmax <= h < |g.entries| && g.entries[h].Loaded? && !(h == 0 && g.maxindex == 0)
    ensures Inv(Remove(g, h))
  {
    CountUpdate(g.entries, h, Empty);
    RemoveSlots(g.entries, g.freeSlots, h);
    AllStatic(g);
  }

  /** Unregistration keeps the invariant exactly when the policy refuses to be unloaded, or its
      handle is dynamic and `maxindex` does not pass zero. */
  lemma UnregisterInv(g: Registry, h: int)
    requires Inv(g) && g.max < 0x1_0000_0000 && 0 <= h < |g.entries| && g.entries[h].Loaded?
    ensures Inv(Unregister(g, h).0) <==>
      !g.entries[h].conf.unloadOk || (h >= g.staticmax && !(h == 0 && g.maxindex == 0))
  {
    if h < g.staticmax {
      assert Remove(g, h).entries[h].Empty? && h < Remove(g, h).freehint;
    } else if !(h == 0 && g.maxindex == 0) {
      RemoveInv(g, h);
    }
  }

  /** Unregistration, said the same way: a policy that refuses stays and the error is EBUSY; otherwise
      its handle and its slot are free afterwards and nothing else has changed hands. */
  lemma UnregisterSays(g: Registry, h: int)
    requires Inv(g) && 0 <= h < |g.entries| && g.entries[h].Loaded?
    ensures var (g', o) := Unregister(g, h);
      if g.entries[h].conf.unloadOk then
        && o == Done(h) && |g'.entries| == |g.entries| && g'.numloaded == g.numloaded - 1
        && (forall i :: 0 <= i < |g.entries| ==> g'.entries[i] == if i == h then Empty else g.entries[i])
        && (forall x :: x in g'.freeSlots <==> x in g.freeSlots || (Owns(g.entries[h]) && x == g.entries[h].slot))
        && g'.staticmax == g.staticmax && g'.late == g.late
        && g'.freehint == (if g.staticmax <= h < g.freehint then h else g.freehint)
        && (g'.maxindex != g.maxindex <==> h == g.maxindex)
      else o == Error(16) && g' == g
  {
  }

  /** What goes wrong otherwise: once a static policy has left, its handle is free but below the
      hint, out of the search's reach.  The search then has nothing to find, on a list with room
      that does not grow, exactly if the list was full. */
  lemma LostHandle(g: Registry, h: int)
    requires Inv(g) && 0 <= h < g.staticmax && g.entries[h].conf.unloadOk
    ensures var g' := Unregister(g, h).0;
      && Roomy(g') == g' && g'.numloaded < g'.max && g'.entries[h].Empty? && h < g'.freehint
      && ((forall i :: g'.freehint <= i < |g'.entries| ==> g'.entries[i].Loaded?) <==> g.numloaded == g.max)
  {
    CountFull(g.entries);
    assert forall i :: g.freehint <= i < |g.entries| ==> Unregister(g, h).0.entries[i] == g.entries[i];
  }

  /** The shortest runs to a broken list: the first policy of a list is loaded, agrees to be
      unloaded, and is unloaded.  Before the boot ends that leaves a hole in the static part; after
      it, `maxindex` wraps. */
  lemma FirstUnloadBreaks(late: bool, conf: Conf) returns (g: Registry)
    requires conf.unloadOk && !conf.notLate
    ensures Inv(Initial().(late := late)) && Registers(Initial().(late := late), conf, g, Done(0))
    ensures Inv(g) && Unregister(g, 0).1 == Done(0) && !Inv(Unregister(g, 0).0)
  {
    var g0 := Initial().(late := late);
    var slot := if conf.wantsSlot then 0 else -1;
    g := Place(g0, conf, 0, slot);
    assert LeastSlot(g0.freeSlots, conf, slot) && !NameTaken(g0.entries, conf.name);
    RegisterInv(g0, conf, g, Done(0));
    UnregisterInv(g, 0);
  }

  // ---------- Histories ----------

  datatype Event = Load(conf: Conf) | Unload(handle: int) | BootDone

  /** What a history may hold: any load at any time, and the unloads of `UnregisterInv`, that is,
      of a loaded handle whose policy refuses, or which is dynamic and not the last of a list
      without static policies. */
  ghost predicate Allowed(g: Registry, ev: Event) {
    match ev
    case Load(conf) => true
    case Unload(h) =>
      && 0 <= h < |g.entries| && g.entries[h].Loaded?
      && (!g.entries[h].conf.unloadOk || (h >= g.staticmax && !(h == 0 && g.maxindex == 0)))
    case BootDone => true
  }

  ghost predicate Next(g: Registry, ev: Event, g': Registry) {
    && Allowed(g, ev)
    && match ev
       case Load(conf) => exists o :: Registers(g, conf, g', o)
       case Unload(h) => g' == Unregister(g, h).0
       case BootDone => g' == g.(late := true)
  }

  /** The static part only grows, and after the boot only by policies that refuse to be unloaded, over
      handles that were free. */
  ghost predicate StaticGrows(g: Registry, g': Registry) {
    && 0 <= g.staticmax <= g'.staticmax && g.staticmax <= |g.entries| && g'.staticmax <= |g'.entries|
    && (forall i :: 0 <= i < g.staticmax ==> g'.entries[i] == g.entries[i])
    && (g.late ==> g'.late)
    && (g.late ==> forall i :: g.staticmax <= i < g'.staticmax ==>
          && g'.entries[i].Loaded? && !g'.entries[i].conf.unloadOk
          && (i < |g.entries| ==> g.entries[i].Empty?))
  }

  lemma PlaceGrows(g: Registry, conf: Conf, h: int, slot: int)
    requires CountersOk(g) && LeastFree(g.entries, h) && CountersOk(Place(g, conf, h, slot))
    ensures StaticGrows(g, Place(g, conf, h, slot))
  {
    hide Count;
    AllStatic(g);
  }

  lemma LoadKeeps(g: Registry, conf: Conf, g': Registry, o: Outcome)
    requires Inv(g) && Registers(g, conf, g', o)
    ensures Inv(g') && StaticGrows(g, g')
  {
    hide SlotsOk, DistinctNames, NameTaken, Count, Place, LeastSlot;
    RegisterInv(g, conf, g', o);
    RoomyInv(g);
    var r := Roomy(g);
    assert StaticGrows(g, r);
    assert forall i :: 0 <= i < |g.entries| ==> g.entries[i] == r.entries[i];
    if o.Done? {
      var slot :| g' == Place(r, conf, o.handle, slot) && LeastSlot(g.freeSlots, conf, slot);
      PlaceGrows(r, conf, o.handle, slot);
    }
  }

  lemma UnloadKeeps(g: Registry, h: int)
    requires Inv(g) && Allowed(g, Unload(h))
    ensures Inv(Unregister(g, h).0) && StaticGrows(g, Unregister(g, h).0)
  {
    hide SlotsOk, DistinctNames, Count;
    if g.entries[h].conf.unloadOk {
      AllStatic(g);
      RemoveInv(g, h);
    }
  }

  lemma NextKeeps(g: Registry, ev: Event, g': Registry)
    requires Inv(g) && Next(g, ev, g')
    ensures Inv(g') && StaticGrows(g, g')
  {
    hide SlotsOk, DistinctNames, Registers, Count;
    match ev
    case Load(conf) =>
      var o :| Registers(g, conf, g', o);
      LoadKeeps(g, conf, g', o);
    case Unload(h) =>
      UnloadKeeps(g, h);
    case BootDone =>
  }

  /** Every history of the list, from `mac_policy_init` on, keeps the invariant. */
  lemma {:induction false} HistoryKeeps(gs: seq<Registry>, evs: seq<Event>)
    requires |gs| == |evs| + 1 && gs[0] == Initial()
    requires forall k :: 0 <= k < |evs| ==> Next(gs[k], evs[k], gs[k + 1])
    ensures forall k :: 0 <= k < |gs| ==> Inv(gs[k])
  {
    if evs == [] {
    } else {
      var n := |evs| - 1;
      HistoryKeeps(gs[..n + 1], evs[..n]);
      assert gs[..n + 1][n] == gs[n] && Inv(gs[..n + 1][n]);
      NextKeeps(gs[n], evs[n], gs[n + 1]);
      forall k | 0 <= k < |gs| ensures Inv(gs[k]) {
        assert k <= n ==> gs[..n + 1][k] == gs[k] && Inv(gs[..n + 1][k]);
      }
    }
  }

  /** Once the boot is over, whatever happens, every policy that becomes static refuses to be unloaded,
      and the policies static before stay. */
  lemma {:induction false} LateStatics(gs: seq<Registry>, evs: seq<Event>, j: int, k: int)
    requires |gs| == |evs| + 1 && gs[0] == Initial()
    requires forall n :: 0 <= n < |evs| ==> Next(gs[n], evs[n], gs[n + 1])
    requires 0 <= j <= k < |gs| && gs[j].late
    ensures gs[k].late && 0 <= gs[j].staticmax <= gs[k].staticmax <= |gs[k].entries|
    ensures gs[j].staticmax <= |gs[j].entries|
    ensures forall i :: 0 <= i < gs[j].staticmax ==> gs[k].entries[i] == gs[j].entries[i]
    ensures forall i :: gs[j].staticmax <= i < gs[k].staticmax ==>
      gs[k].entries[i].Loaded? && !gs[k].entries[i].conf.unloadOk
  {
    hide Next, SlotsOk, DistinctNames, Count;
    HistoryKeeps(gs, evs);
    assert Inv(gs[j]);
    if j == k {
    } else {
      LateStatics(gs, evs, j, k - 1);
      assert Next(gs[k - 1], evs[k - 1], gs[k]) && Inv(gs[k - 1]);
      NextKeeps(gs[k - 1], evs[k - 1], gs[k]);
    }
  }
}
