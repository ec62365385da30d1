/** Policy walks beside late registration: the lock, the busy count and `MAC_POLICY_ITERATE` as
  interleaved steps of any number of threads.

  A thread is either idle, walking the policies, or loading or unloading one.  Every read of a
  counter or an entry, every lock, unlock, sleep and count is a step of its own; the change an
  exclusive writer makes to the list is one step.
 */
module PolicyWalk {
  import opened PolicyList

  /** Where a thread stands. */
  datatype Pc =
    | Idle
    | StaticTest(i: nat)              // lock-free loop, about to test i against staticmax
    | StaticRead(i: nat)              // lock-free loop, about to read entry i
    | StaticHook(i: nat, e: Entry)    // lock-free loop, running the hook of the entry it read
    | CondRead(i: nat)                // conditional_busy, about to read one of the counters without the lock
    | MaxFirst(i: nat, m: int)        // having read staticmax, about to compare numloaded with it
    | LoadedFirst(i: nat, n: int)     // having read numloaded, about to compare it with staticmax
    | CondLock(i: nat)                // waiting for the lock
    | CondRetest(i: nat)              // holding the lock, before the second test
    | CondUnlock(i: nat, busy: bool)  // holding the lock, having counted itself or not
    | DynTest(i: nat)                 // counted, about to test i against maxindex
    | DynRead(i: nat)                 // counted, about to read entry i
    | DynHook(i: nat, e: Entry)       // counted, running the hook of the entry it read
    | UnbusyLock                      // counted, waiting for the lock
    | UnbusyHeld                      // counted, holding the lock
    | UnbusyUnlock                    // holding the lock, no longer counted
    | WriteLock(ev: Event)            // writer, waiting for the lock
    | WriteTest(ev: Event)            // writer, holding the lock, before testing the count
    | WriteSleep(ev: Event)           // writer, asleep without the lock
    | WriteExcl(ev: Event)            // writer, exclusive
    | WriteUnlock                     // writer, done, still holding the lock

  /** A thread and the entries its current (or last) walk has visited. */
  datatype Thread = Thread(pc: Pc, seen: seq<(int, Entry)>)

  datatype Owner = Nobody | Held(t: int)

  datatype System = System(g: Registry, busy: int, owner: Owner, threads: map<int, Thread>) {
    ghost function Put(t: int, pc: Pc): System
      requires t in threads
    {
      this.(threads := threads[t := threads[t].(pc := pc)])
    }

    ghost function Visit(t: int, i: int, pc: Pc): System
      requires t in threads && 0 <= i < |g.entries|
    {
      this.(threads := threads[t := Thread(pc, threads[t].seen + [(i, g.entries[i])])])
    }
  }

  predicate HoldsLock(pc: Pc) {
    pc.CondRetest? || pc.CondUnlock? || pc.UnbusyHeld? || pc.UnbusyUnlock?
    || pc.WriteTest? || pc.WriteExcl? || pc.WriteUnlock?
  }

  predicate Counted(pc: Pc) {
    (pc.CondUnlock? && pc.busy) || pc.DynTest? || pc.DynRead? || pc.DynHook?
    || pc.UnbusyLock? || pc.UnbusyHeld?
  }

  // ---------- Steps ----------

  /** Reading entry `i`: an empty one is passed over, and the hook of a loaded one is run. */
  ghost predicate ReadStep(s: System, t: int, i: nat, next: Pc, s': System)
    requires t in s.threads
  {
    && i < |s.g.entries|
    && var e := s.g.entries[i];
       if e.Empty? then s' == s.Put(t, next)
       else s' == s.Visit(t, i, if next.StaticTest? then StaticHook(i, e) else DynHook(i, e))
  }

  ghost predicate WalkStep(s: System, t: int, s': System)
    requires t in s.threads && CountersOk(s.g)
  {
    match s.threads[t].pc
    case StaticTest(i) => s' == s.Put(t, if i < s.g.staticmax then StaticRead(i) else CondRead(i))
    case StaticRead(i) => ReadStep(s, t, i, StaticTest(i + 1), s')
    case StaticHook(i, _) => s' == s.Put(t, StaticTest(i + 1))
    case CondRead(i) => s' == s.Put(t, MaxFirst(i, s.g.staticmax)) || s' == s.Put(t, LoadedFirst(i, s.g.numloaded))
    case MaxFirst(i, m) => s' == s.Put(t, if s.g.numloaded <= m then Idle else CondLock(i))
    case LoadedFirst(i, n) => s' == s.Put(t, if n <= s.g.staticmax then Idle else CondLock(i))
    case DynTest(i) => s' == s.Put(t, if i <= s.g.maxindex then DynRead(i) else UnbusyLock)
    case DynRead(i) => ReadStep(s, t, i, DynTest(i + 1), s')
    case DynHook(i, _) => s' == s.Put(t, DynTest(i + 1))
    case _ => false
  }

  ghost predicate LockStep(s: System, t: int, s': System)
    requires t in s.threads
  {
    match s.threads[t].pc
    case CondLock(i) => s.owner == Nobody && s' == s.Put(t, CondRetest(i)).(owner := Held(t))
    case CondUnlock(i, busy) => s' == s.Put(t, if busy then DynTest(i) else Idle).(owner := Nobody)
    case UnbusyLock => s.owner == Nobody && s' == s.Put(t, UnbusyHeld).(owner := Held(t))
    case UnbusyUnlock => s' == s.Put(t, Idle).(owner := Nobody)
    case WriteLock(ev) => s.owner == Nobody && s' == s.Put(t, WriteTest(ev)).(owner := Held(t))
    case WriteTest(ev) =>
      if s.busy != 0 then s' == s.Put(t, WriteSleep(ev)).(owner := Nobody)
      else s' == s.Put(t, WriteExcl(ev))
    case WriteSleep(ev) => s' == s.Put(t, WriteLock(ev))
    case WriteUnlock => s' == s.Put(t, Idle).(owner := Nobody)
    case _ => false
  }

  ghost predicate CountStep(s: System, t: int, s': System)
    requires t in s.threads
  {
    match s.threads[t].pc
    case CondRetest(i) =>
      if s.g.numloaded > s.g.staticmax then s' == s.Put(t, CondUnlock(i, true)).(busy := s.busy + 1)
      else s' == s.Put(t, CondUnlock(i, false))
    case UnbusyHeld => s' == s.Put(t, UnbusyUnlock).(busy := s.busy - 1)
    case _ => false
  }

  ghost predicate WriteStep(s: System, t: int, s': System)
    requires t in s.threads
  {
    && s.threads[t].pc.WriteExcl?
    && !s.threads[t].pc.ev.BootDone?
    && Next(s.g, s.threads[t].pc.ev, s'.g)
    && s' == s.Put(t, WriteUnlock).(g := s'.g)
  }

  ghost predicate StartStep(s: System, t: int, s': System)
    requires t in s.threads
  {
    && s.threads[t].pc.Idle?
    && (|| s' == s.(threads := s.threads[t := Thread(StaticTest(0), [])])
        || exists ev :: s' == s.Put(t, WriteLock(ev)))
  }

  ghost predicate Step(s: System, t: int, s': System) {
    && t in s.threads && CountersOk(s.g)
    && (WalkStep(s, t, s') || LockStep(s, t, s') || CountStep(s, t, s') || WriteStep(s, t, s') || StartStep(s, t, s'))
  }

  // ---------- What every step keeps ----------

  ghost function Readers(s: System): set<int> {
    set t | t in s.threads && Counted(s.threads[t].pc)
  }

  /** Where a thread may stand, given the list, the count and the lock. */
  ghost predicate ThreadOk(s: System, t: int)
    requires t in s.threads && CountersOk(s.g)
  {
    var pc := s.threads[t].pc;
    && (HoldsLock(pc) <==> s.owner == Held(t))
    && (pc.WriteExcl? ==> s.busy == 0)
    && (pc.StaticRead? ==> pc.i < s.g.staticmax)
    && (pc.DynRead? ==> pc.i <= s.g.maxindex)
    && (pc.StaticTest? || pc.CondRead? ==> pc.i <= s.g.staticmax)
    && (pc.MaxFirst? ==> pc.m <= s.g.staticmax)
    && (pc.StaticHook? ==> 0 <= pc.i < s.g.staticmax && s.g.entries[pc.i] == pc.e)
    && (pc.DynHook? ==> 0 <= pc.i < |s.g.entries| && s.g.entries[pc.i] == pc.e)
  }

  ghost predicate SystemInv(s: System) {
    && Inv(s.g) && s.g.late
    && s.busy == |Readers(s)|
    && (forall t :: t in s.threads ==> ThreadOk(s, t))
  }

  /** When the boot is over and every thread is idle, the system is in order. */
  lemma Booted(s: System)
    requires Inv(s.g) && s.g.late && s.busy == 0 && s.owner == Nobody
    requires forall t :: t in s.threads ==> s.threads[t].pc.Idle?
    ensures SystemInv(s)
  {
    hide DistinctNames, SlotsOk, Count;
    forall t ensures t !in Readers(s) {
      assert t in s.threads ==> s.threads[t].pc.Idle?;
    }
    assert Readers(s) == {};
  }

  lemma ReadersSame(s: System, t: int, s': System)
    requires t in s.threads && t in s'.threads && s'.threads == s.threads[t := s'.threads[t]]
    ensures Counted(s'.threads[t].pc) == Counted(s.threads[t].pc) ==> Readers(s') == Readers(s)
    ensures Counted(s'.threads[t].pc) && !Counted(s.threads[t].pc) ==> |Readers(s')| == |Readers(s)| + 1
    ensures !Counted(s'.threads[t].pc) && Counted(s.threads[t].pc) ==> |Readers(s')| == |Readers(s)| - 1
  {
    if Counted(s'.threads[t].pc) && !Counted(s.threads[t].pc) {
      assert Readers(s') == Readers(s) + {t};
    } else if !Counted(s'.threads[t].pc) && Counted(s.threads[t].pc) {
      assert Readers(s') == Readers(s) - {t};
    } else {
      assert Readers(s') == Readers(s);
    }
  }

  lemma NoReader(s: System, t: int)
    requires s.busy == |Readers(s)| == 0 && t in s.threads
    ensures !Counted(s.threads[t].pc)
  {
    assert Readers(s) == {};
    assert t !in Readers(s);
  }

  lemma WriteKeeps(s: System, t: int, s': System)
    requires SystemInv(s) && t in s.threads && WriteStep(s, t, s')
    ensures SystemInv(s')
  {
    hide DistinctNames, SlotsOk, Count, Next;
    NextKeeps(s.g, s.threads[t].pc.ev, s'.g);
    assert ThreadOk(s, t);
    ReadersSame(s, t, s');
    forall u | u in s'.threads ensures ThreadOk(s', u) {
      assert ThreadOk(s, u);
      NoReader(s, u);
    }
  }

  lemma StartKeeps(s: System, t: int, s': System)
    requires SystemInv(s) && t in s.threads && StartStep(s, t, s')
    ensures SystemInv(s')
  {
    hide DistinctNames, SlotsOk, Count;
    assert ThreadOk(s, t);
    ReadersSame(s, t, s');
    forall u | u in s'.threads ensures ThreadOk(s', u) {
      assert ThreadOk(s, u);
    }
  }

  lemma WalkKeeps(s: System, t: int, s': System)
    requires SystemInv(s) && t in s.threads && WalkStep(s, t, s')
    ensures SystemInv(s')
  {
    hide DistinctNames, SlotsOk, Count, CountersOk;
    assert ThreadOk(s, t);
    ReadersSame(s, t, s');
    forall u | u in s'.threads ensures ThreadOk(s', u) {
      assert ThreadOk(s, u);
    }
  }

  lemma LockKeeps(s: System, t: int, s': System)
    requires SystemInv(s) && t in s.threads && (LockStep(s, t, s') || CountStep(s, t, s'))
    ensures SystemInv(s')
  {
    hide DistinctNames, SlotsOk, Count, CountersOk;
    assert ThreadOk(s, t);
    ReadersSame(s, t, s');
    forall u | u in s'.threads ensures ThreadOk(s', u) {
      assert ThreadOk(s, u);
    }
  }

  lemma StepKeeps(s: System, t: int, s': System)
    requires SystemInv(s) && Step(s, t, s')
    ensures SystemInv(s')
  {
    hide SystemInv, WalkStep, LockStep, CountStep, WriteStep, StartStep, CountersOk;
    if WriteStep(s, t, s') {
      WriteKeeps(s, t, s');
    } else if WalkStep(s, t, s') {
      WalkKeeps(s, t, s');
    } else if StartStep(s, t, s') {
      StartKeeps(s, t, s');
    } else {
      LockKeeps(s, t, s');
    }
  }

  // ---------- Whole runs ----------

  /** A run: each state follows from the one before by a step of the scheduled thread. */
  ghost predicate Run(run: seq<System>, sched: seq<int>) {
    && |run| == |sched| + 1 && SystemInv(run[0])
    && forall k :: 0 <= k < |sched| ==> Step(run[k], sched[k], run[k + 1])
  }

  lemma {:induction false} RunKeeps(run: seq<System>, sched: seq<int>, n: int)
    requires Run(run, sched) && 0 <= n < |run|
    ensures SystemInv(run[n])
  {
    if n == 0 {
    } else {
      RunKeeps(run, sched, n - 1);
      StepKeeps(run[n - 1], sched[n - 1], run[n]);
    }
  }

  /** Exclusion, in every state of every run: the count is the number of readers, the list changes
      only while there are none, at most one thread has the lock, an idle thread holds nothing, and a
      policy whose hook is running is loaded. */
  lemma Exclusion(run: seq<System>, sched: seq<int>, n: int)
    requires Run(run, sched) && 0 <= n < |run|
    ensures run[n].busy == |Readers(run[n])| >= 0
    ensures n < |sched| && run[n + 1].g != run[n].g ==>
      run[n].busy == 0 && run[n].threads[sched[n]].pc.WriteExcl? && Readers(run[n]) == {}
    ensures forall t, u :: t in run[n].threads && u in run[n].threads ==>
      HoldsLock(run[n].threads[t].pc) ==> HoldsLock(run[n].threads[u].pc) ==> t == u
    ensures forall t :: t in run[n].threads && run[n].threads[t].pc.Idle? ==>
      t !in Readers(run[n]) && run[n].owner != Held(t)
    ensures forall t :: t in run[n].threads && (run[n].threads[t].pc.StaticHook? || run[n].threads[t].pc.DynHook?) ==>
      var pc := run[n].threads[t].pc; 0 <= pc.i < |run[n].g.entries| && run[n].g.entries[pc.i] == pc.e
  {
    hide DistinctNames, SlotsOk, Count, Next;
    RunKeeps(run, sched, n);
    forall t | t in run[n].threads ensures ThreadOk(run[n], t) {
    }
    if n < |sched| {
      assert Step(run[n], sched[n], run[n + 1]);
    }
  }

  // ---------- Every policy that stays is visited once ----------

  /** Handles below this have been dealt with by a walk that stands at `pc`. */
  function Passed(pc: Pc): int {
    match pc
    case StaticTest(i) => i
    case StaticRead(i) => i
    case StaticHook(i, _) => i + 1
    case CondRead(i) => i
    case MaxFirst(i, _) => i
    case LoadedFirst(i, _) => i
    case CondLock(i) => i
    case CondRetest(i) => i
    case CondUnlock(i, _) => i
    case DynTest(i) => i
    case DynRead(i) => i
    case DynHook(i, _) => i + 1
    case _ => -1
  }

  /** The walk is over, or only has to give back what it holds. */
  predicate Finished(pc: Pc) {
    pc.Idle? || pc.UnbusyLock? || pc.UnbusyHeld? || pc.UnbusyUnlock? || (pc.CondUnlock? && !pc.busy)
  }

  predicate Walking(pc: Pc) {
    pc.StaticTest? || pc.StaticRead? || pc.StaticHook? || pc.CondRead? || pc.MaxFirst? || pc.LoadedFirst?
    || pc.CondLock? || pc.CondRetest? || pc.CondUnlock? || pc.DynTest? || pc.DynRead? || pc.DynHook? || Finished(pc)
  }

  predicate SamePolicy(d: Entry, e: Entry) {
    d.Loaded? && e.Loaded? && d.conf.name == e.conf.name
  }

  /** The walk of `t` so far, with respect to entry `e` at handle `h`, which stays loaded. */
  ghost predicate WalkOk(s: System, t: int, h: int, e: Entry)
    requires t in s.threads && CountersOk(s.g)
  {
    var pc, seen := s.threads[t].pc, s.threads[t].seen;
    && Walking(pc)
    && (forall j, k :: 0 <= j < k < |seen| ==> seen[j].0 < seen[k].0)
    && (forall j :: 0 <= j < |seen| && !Finished(pc) ==> seen[j].0 < Passed(pc))
    && (forall j :: 0 <= j < |seen| && SamePolicy(seen[j].1, e) ==> seen[j].0 == h)
    && (h < Passed(pc) || Finished(pc) ==> (h, e) in seen)
    && (pc.CondRead? || pc.MaxFirst? || pc.LoadedFirst? || pc.CondLock? || pc.CondRetest? ==>
          h < s.g.staticmax ==> h < pc.i)
  }

  /** Entry `e` is loaded at `h`. */
  ghost predicate LoadedAt(g: Registry, h: int, e: Entry) {
    0 <= h < |g.entries| && g.entries[h] == e && e.Loaded?
  }

  lemma OneHandle(g: Registry, h: int, e: Entry)
    requires DistinctNames(g.entries) && LoadedAt(g, h, e)
    ensures forall i :: 0 <= i < |g.entries| && SamePolicy(g.entries[i], e) ==> i == h
  {
  }

  /** Visiting handle `i`, the next to be dealt with. */
  lemma WalkerVisits(s: System, t: int, i: nat, pc: Pc, h: int, e: Entry)
    requires Inv(s.g) && t in s.threads && LoadedAt(s.g, h, e) && WalkOk(s, t, h, e) && i < |s.g.entries|
    requires !Finished(s.threads[t].pc) && Passed(s.threads[t].pc) == i
    requires (pc.StaticHook? || pc.DynHook?) && Passed(pc) == i + 1
    ensures WalkOk(s.Visit(t, i, pc), t, h, e)
  {
    hide SlotsOk, Count, DistinctNames;
    OneHandle(s.g, h, e);
    var seen := s.threads[t].seen;
    assert (seen + [(i, s.g.entries[i])])[|seen|] == (i, s.g.entries[i]);
  }

  /** The unlocked test, with `numloaded` read first, is about to end the walk of `t` before handle `h`. */
  ghost predicate Misses(s: System, t: int, h: int)
    requires t in s.threads
  {
    var pc := s.threads[t].pc;
    pc.LoadedFirst? && pc.i <= h && pc.n <= s.g.staticmax
  }

  lemma WalkerWalks(s: System, t: int, s': System, h: int, e: Entry)
    requires Inv(s.g) && t in s.threads && ThreadOk(s, t) && WalkStep(s, t, s') && !Misses(s, t, h)
    requires LoadedAt(s.g, h, e) && WalkOk(s, t, h, e)
    ensures WalkOk(s', t, h, e)
  {
    hide SlotsOk, Count, DistinctNames;
    var pc := s.threads[t].pc;
    if s'.threads[t].seen != s.threads[t].seen {
      assert s' == s.Visit(t, pc.i, s'.threads[t].pc);
      WalkerVisits(s, t, pc.i, s'.threads[t].pc, h, e);
    } else if pc.MaxFirst? {
      AllStatic(s.g);
    }
  }

  lemma WalkerMoves(s: System, t: int, s': System, h: int, e: Entry)
    requires SystemInv(s) && Step(s, t, s') && LoadedAt(s.g, h, e)
    requires WalkOk(s, t, h, e) && !s.threads[t].pc.Idle? && !Misses(s, t, h) && Inv(s'.g)
    ensures WalkOk(s', t, h, e)
  {
    hide SlotsOk, Count, DistinctNames, Next;
    if WalkStep(s, t, s') {
      WalkerWalks(s, t, s', h, e);
    } else {
      AllStatic(s.g);
    }
  }

  /** A walk that misses `h` ends at once, without a visit to the policy there. */
  lemma WalkerMisses(s: System, t: int, s': System, h: int, e: Entry)
    requires CountersOk(s.g) && Step(s, t, s') && WalkOk(s, t, h, e) && Misses(s, t, h)
    ensures s'.threads[t].pc.Idle? && s'.threads[t].seen == s.threads[t].seen
    ensures forall k :: 0 <= k < |s'.threads[t].seen| ==> !SamePolicy(s'.threads[t].seen[k].1, e)
  {
    hide CountersOk, Next;
  }

  /** A step touches no thread but its own, and the list only if it is a writer's. */
  lemma StepIsLocal(s: System, u: int, s': System, t: int)
    requires Step(s, u, s') && t in s.threads && t != u
    ensures u in s.threads && t in s'.threads && s'.threads[t] == s.threads[t]
    ensures s'.g == s.g || WriteStep(s, u, s')
  {
    hide CountersOk, Next;
  }

  lemma OthersMove(s: System, u: int, s': System, t: int, h: int, e: Entry)
    requires SystemInv(s) && Step(s, u, s') && LoadedAt(s.g, h, e) && LoadedAt(s'.g, h, e)
    requires t in s.threads && t != u && WalkOk(s, t, h, e) && Inv(s'.g)
    ensures t in s'.threads && WalkOk(s', t, h, e)
  {
    hide SlotsOk, DistinctNames, Count, Next, Step;
    StepIsLocal(s, u, s', t);
    if WriteStep(s, u, s') {
      NextKeeps(s.g, s.threads[u].pc.ev, s'.g);
    }
  }

  /** Thread `t` starts a walk in the first state of the run and ends it in the last. */
  ghost predicate WholeWalk(run: seq<System>, t: int) {
    && |run| >= 2
    && (forall k :: 0 <= k < |run| ==> t in run[k].threads)
    && run[0].threads[t] == Thread(StaticTest(0), [])
    && (forall k :: 0 <= k < |run| - 1 ==> !run[k].threads[t].pc.Idle?)
    && run[|run| - 1].threads[t].pc.Idle?
  }

  /** Up to the step that ends it, the walk is in order. */
  lemma {:induction false} WalkInRun(run: seq<System>, sched: seq<int>, t: int, h: int, e: Entry, n: int)
    requires Run(run, sched) && WholeWalk(run, t) && 0 <= n < |run| - 1
    requires forall k :: 0 <= k < |run| ==> LoadedAt(run[k].g, h, e)
    ensures SystemInv(run[n]) && WalkOk(run[n], t, h, e)
  {
    hide Step;
    RunKeeps(run, sched, n);
    if n == 0 {
    } else {
      WalkInRun(run, sched, t, h, e, n - 1);
      assert Step(run[n - 1], sched[n - 1], run[n]);
      if sched[n - 1] != t {
        OthersMove(run[n - 1], sched[n - 1], run[n], t, h, e);
      } else {
        if Misses(run[n - 1], t, h) {
          WalkerMisses(run[n - 1], t, run[n], h, e);
        }
        WalkerMoves(run[n - 1], t, run[n], h, e);
      }
    }
  }

  /** In the unlocked test of its walk, `t` reads `numloaded` at step `j` and `staticmax` at step `k`. */
  ghost predicate Reads(run: seq<System>, sched: seq<int>, t: int, j: int, k: int)
    requires |run| == |sched| + 1 && forall l :: 0 <= l < |run| ==> t in run[l].threads
  {
    && 0 <= j < k < |sched| && sched[j] == t && sched[k] == t
    && run[j].threads[t].pc.CondRead? && run[k].threads[t].pc.LoadedFirst?
    && (forall l :: j < l < k ==> run[l].threads[t].pc == run[k].threads[t].pc)
  }

  /** Handle `h` is dynamic when `numloaded` is read, and by the time `staticmax` is read that has caught
      up with the number. */
  ghost predicate Overtaken(run: seq<System>, sched: seq<int>, t: int, h: int)
    requires |run| == |sched| + 1 && forall l :: 0 <= l < |run| ==> t in run[l].threads
  {
    exists j, k :: Reads(run, sched, t, j, k) &&
      run[j].g.staticmax <= h && run[j].g.staticmax < run[j].g.numloaded <= run[k].g.staticmax
  }

  /** The first read of a test that has read `numloaded`. */
  lemma {:induction false} FirstRead(run: seq<System>, sched: seq<int>, t: int, k: int) returns (j: int)
    requires Run(run, sched) && WholeWalk(run, t) && 0 <= k < |sched|
    requires run[k].threads[t].pc.LoadedFirst?
    ensures 0 <= j < k && sched[j] == t && run[j].threads[t].pc == CondRead(run[k].threads[t].pc.i)
    ensures run[k].threads[t].pc.n == run[j].g.numloaded
    ensures forall l :: j < l < k ==> run[l].threads[t].pc == run[k].threads[t].pc
  {
    hide SystemInv, CountersOk, Next;
    assert Step(run[k - 1], sched[k - 1], run[k]);
    if sched[k - 1] != t {
      StepIsLocal(run[k - 1], sched[k - 1], run[k], t);
      j := FirstRead(run, sched, t, k - 1);
    } else {
      j := k - 1;
    }
  }

  /** The last step of a walk misses `h` exactly if its two reads were overtaken. */
  lemma MissedIffOvertaken(run: seq<System>, sched: seq<int>, t: int, h: int, e: Entry)
    requires Run(run, sched) && WholeWalk(run, t)
    requires forall k :: 0 <= k < |run| ==> LoadedAt(run[k].g, h, e)
    ensures sched[|sched| - 1] == t && (Misses(run[|run| - 2], t, h) <==> Overtaken(run, sched, t, h))
  {
    hide SystemInv, WalkOk, Step;
    var n := |sched| - 1;
    assert Step(run[n], sched[n], run[n + 1]);
    if sched[n] != t {
      StepIsLocal(run[n], sched[n], run[n + 1], t);
    }
    if Misses(run[n], t, h) {
      var j := FirstRead(run, sched, t, n);
      FirstReadOf(run, sched, t, h, e, j);
      assert Reads(run, sched, t, j, n);
    }
    if Overtaken(run, sched, t, h) {
      var j, k :| Reads(run, sched, t, j, k) &&
        run[j].g.staticmax <= h && run[j].g.staticmax < run[j].g.numloaded <= run[k].g.staticmax;
      OvertakenMisses(run, sched, t, h, e, j, k);
    }
  }

  /** When the first counter is read, the static policies have been visited and no others. */
  lemma FirstReadOf(run: seq<System>, sched: seq<int>, t: int, h: int, e: Entry, j: int)
    requires Run(run, sched) && WholeWalk(run, t) && 0 <= j < |run| - 1 && run[j].threads[t].pc.CondRead?
    requires forall k :: 0 <= k < |run| ==> LoadedAt(run[k].g, h, e)
    ensures h < run[j].threads[t].pc.i <==> h < run[j].g.staticmax
    ensures h >= run[j].g.staticmax ==> run[j].g.numloaded > run[j].g.staticmax
  {
    hide SlotsOk, DistinctNames, Count, Step;
    WalkInRun(run, sched, t, h, e, j);
    assert ThreadOk(run[j], t);
    AllStatic(run[j].g);
  }

  lemma OvertakenMisses(run: seq<System>, sched: seq<int>, t: int, h: int, e: Entry, j: int, k: int)
    requires Run(run, sched) && WholeWalk(run, t) && Reads(run, sched, t, j, k)
    requires forall l :: 0 <= l < |run| ==> LoadedAt(run[l].g, h, e)
    requires run[j].g.staticmax <= h && run[j].g.numloaded <= run[k].g.staticmax
    ensures k == |run| - 2 && Misses(run[k], t, h)
  {
    hide SystemInv, CountersOk, WalkOk, Next;
    FirstReadOf(run, sched, t, h, e, j);
    assert Step(run[j], t, run[j + 1]);
    assert run[j + 1].threads[t].pc == run[k].threads[t].pc;
    assert Step(run[k], t, run[k + 1]);
    assert run[k + 1].threads[t].pc.Idle?;
  }

  /** What a walk makes of a policy that is loaded for the whole of it, whatever other threads load and
      unload meanwhile: it visits it exactly once, unless it read `numloaded` before `staticmax` and was
      overtaken, and then not at all. */
  lemma VisitedOnce(run: seq<System>, sched: seq<int>, t: int, h: int, e: Entry)
    requires Run(run, sched) && WholeWalk(run, t)
    requires forall k :: 0 <= k < |run| ==> LoadedAt(run[k].g, h, e)
    ensures var seen := run[|run| - 1].threads[t].seen;
      && (!Overtaken(run, sched, t, h) <==> VisitsOnce(seen, h, e))
      && (Overtaken(run, sched, t, h) <==> forall k :: 0 <= k < |seen| ==> !SamePolicy(seen[k].1, e))
  {
    hide SystemInv, Step, Overtaken;
    var n := |run| - 2;
    MissedIffOvertaken(run, sched, t, h, e);
    WalkInRun(run, sched, t, h, e, n);
    assert Step(run[n], sched[n], run[n + 1]);
    var seen := run[n + 1].threads[t].seen;
    if Misses(run[n], t, h) {
      assert CountersOk(run[n].g) by { SystemCounters(run[n]); }
      WalkerMisses(run[n], t, run[n + 1], h, e);
    } else {
      RunKeeps(run, sched, n + 1);
      SystemCounters(run[n + 1]);
      WalkerMoves(run[n], t, run[n + 1], h, e);
      OnceSeen(seen, h, e);
    }
  }

  lemma SystemCounters(s: System)
    requires SystemInv(s)
    ensures Inv(s.g) && CountersOk(s.g)
  {
  }

  /** Among the visits `seen` there is one to entry `e` at `h`, and no other to its policy. */
  ghost predicate VisitsOnce(seen: seq<(int, Entry)>, h: int, e: Entry) {
    exists j :: 0 <= j < |seen| && seen[j] == (h, e) &&
      forall k :: 0 <= k < |seen| && k != j ==> !SamePolicy(seen[k].1, e)
  }

  lemma OnceSeen(seen: seq<(int, Entry)>, h: int, e: Entry)
    requires (h, e) in seen && e.Loaded?
    requires forall j, k :: 0 <= j < k < |seen| ==> seen[j].0 < seen[k].0
    requires forall j :: 0 <= j < |seen| && SamePolicy(seen[j].1, e) ==> seen[j].0 == h
    ensures VisitsOnce(seen, h, e)
  {
    var j :| 0 <= j < |seen| && seen[j] == (h, e);
    forall k | 0 <= k < |seen| && k != j ensures !SamePolicy(seen[k].1, e) {
      assert seen[k].0 != seen[j].0;
    }
  }

  // ---------- A walk that is overtaken ----------

  /** A list with handles 0 and 2 loaded, and the list after a further policy was loaded at handle 1. */
  const FIRST := Loaded(Conf("a", false, false, false), -1)
  const LAST := Loaded(Conf("b", false, true, false), -1)
  const LATE := Conf("c", false, false, false)
  const BEFORE := Initial().(entries := NEW_CHUNK[0 := FIRST][2 := LAST], numloaded := 2, maxindex := 2,
    staticmax := 1, freehint := 1, late := true)
  const AFTER := Place(BEFORE, LATE, 1, -1)

  lemma LateLoad()
    ensures Inv(BEFORE) && Next(BEFORE, Load(LATE), AFTER)
    ensures LoadedAt(BEFORE, 2, LAST) && LoadedAt(AFTER, 2, LAST)
  {
    CountFull(NEW_CHUNK);
    CountUpdate(NEW_CHUNK, 0, FIRST);
    CountUpdate(NEW_CHUNK[0 := FIRST], 2, LAST);
    assert Registers(BEFORE, LATE, AFTER, Done(1)) by {
      hide Inv, Count;
      assert LeastSlot(BEFORE.freeSlots, LATE, -1) && LeastFree(BEFORE.entries, 1);
    }
  }

  /** Thread 0 walks while thread 1 has the lock to load a policy. */
  ghost function Two(g: Registry, pc: Pc, seen: seq<(int, Entry)>, writer: Pc): System {
    System(g, 0, Held(1), map[0 := Thread(pc, seen), 1 := Thread(writer, [])])
  }

  lemma TwoPut(g: Registry, pc: Pc, seen: seq<(int, Entry)>, writer: Pc, next: Pc)
    ensures Two(g, pc, seen, writer).Put(0, next) == Two(g, next, seen, writer)
    ensures Two(g, pc, seen, writer).Put(1, next) == Two(g, pc, seen, next)
    ensures |g.entries| > 0 ==>
      Two(g, pc, seen, writer).Visit(0, 0, next) == Two(g, next, seen + [(0, g.entries[0])], writer)
  {
  }

  lemma TwoInv(writer: Pc)
    requires writer.WriteExcl?
    ensures SystemInv(Two(BEFORE, StaticTest(0), [], writer))
  {
    hide SlotsOk, DistinctNames, Count;
    LateLoad();
    var s := Two(BEFORE, StaticTest(0), [], writer);
    assert Readers(s) == {};
  }

  lemma TwoSteps()
    ensures var w, seen := WriteExcl(Load(LATE)), [(0, FIRST)];
      && Step(Two(BEFORE, StaticTest(0), [], w), 0, Two(BEFORE, StaticRead(0), [], w))
      && Step(Two(BEFORE, StaticRead(0), [], w), 0, Two(BEFORE, StaticHook(0, FIRST), seen, w))
      && Step(Two(BEFORE, StaticHook(0, FIRST), seen, w), 0, Two(BEFORE, StaticTest(1), seen, w))
      && Step(Two(BEFORE, StaticTest(1), seen, w), 0, Two(BEFORE, CondRead(1), seen, w))
      && Step(Two(BEFORE, CondRead(1), seen, w), 0, Two(BEFORE, LoadedFirst(1, 2), seen, w))
  {
    hide CountersOk, Next;
    var w, seen: seq<(int, Entry)> := WriteExcl(Load(LATE)), [(0, FIRST)];
    assert CountersOk(BEFORE) by { LateLoad(); }
    TwoPut(BEFORE, StaticTest(0), [], w, StaticRead(0));
    TwoPut(BEFORE, StaticRead(0), [], w, StaticHook(0, FIRST));
    assert [] + seen == seen;
    TwoPut(BEFORE, StaticHook(0, FIRST), seen, w, StaticTest(1));
    TwoPut(BEFORE, StaticTest(1), seen, w, CondRead(1));
    TwoPut(BEFORE, CondRead(1), seen, w, LoadedFirst(1, 2));
  }

  lemma LateSteps()
    ensures var w, seen := WriteExcl(Load(LATE)), [(0, FIRST)];
      && Step(Two(BEFORE, LoadedFirst(1, 2), seen, w), 1, Two(AFTER, LoadedFirst(1, 2), seen, WriteUnlock))
      && Step(Two(AFTER, LoadedFirst(1, 2), seen, WriteUnlock), 0, Two(AFTER, Idle, seen, WriteUnlock))
  {
    hide CountersOk, Next;
    var w, seen: seq<(int, Entry)> := WriteExcl(Load(LATE)), [(0, FIRST)];
    LateLoad();
    NextKeeps(BEFORE, Load(LATE), AFTER);
    TwoPut(BEFORE, LoadedFirst(1, 2), seen, w, WriteUnlock);
    TwoPut(AFTER, LoadedFirst(1, 2), seen, WriteUnlock, Idle);
  }

  /** The registration falls between the two reads. */
  ghost function Overtaking(): seq<System> {
    var w, seen := WriteExcl(Load(LATE)), [(0, FIRST)];
    [Two(BEFORE, StaticTest(0), [], w), Two(BEFORE, StaticRead(0), [], w),
     Two(BEFORE, StaticHook(0, FIRST), seen, w), Two(BEFORE, StaticTest(1), seen, w),
     Two(BEFORE, CondRead(1), seen, w), Two(BEFORE, LoadedFirst(1, 2), seen, w),
     Two(AFTER, LoadedFirst(1, 2), seen, WriteUnlock), Two(AFTER, Idle, seen, WriteUnlock)]
  }

  const TURNS := [0, 0, 0, 0, 0, 1, 0]

  lemma OvertakingRuns()
    ensures Run(Overtaking(), TURNS)
  {
    hide SystemInv, Step, Two, Initial, Place;
    TwoInv(WriteExcl(Load(LATE)));
    TwoSteps();
    LateSteps();
  }

  lemma OvertakingWalks()
    ensures WholeWalk(Overtaking(), 0)
  {
    hide Initial, Place;
  }

  lemma OvertakingKeeps(k: int)
    requires 0 <= k < |Overtaking()|
    ensures LoadedAt(Overtaking()[k].g, 2, LAST)
  {
    hide LoadedAt, Initial, Place, Inv, Next;
    LateLoad();
    assert Overtaking()[k].g == BEFORE || Overtaking()[k].g == AFTER;
  }

  /** Handle 2 is loaded throughout and never visited. */
  lemma OvertakenRun()
    ensures Run(Overtaking(), TURNS) && WholeWalk(Overtaking(), 0)
    ensures forall k :: 0 <= k < |Overtaking()| ==> LoadedAt(Overtaking()[k].g, 2, LAST)
    ensures Overtaking()[7].threads[0].seen == [(0, FIRST)] && Overtaken(Overtaking(), TURNS, 0, 2)
  {
    hide Run, LoadedAt, Initial, Place, Overtaken, VisitsOnce;
    OvertakingRuns();
    OvertakingWalks();
    forall k | 0 <= k < |Overtaking()| ensures LoadedAt(Overtaking()[k].g, 2, LAST) {
      OvertakingKeeps(k);
    }
    VisitedOnce(Overtaking(), TURNS, 0, 2, LAST);
    assert Overtaking()[7].threads[0].seen == [(0, FIRST)];
  }
}
