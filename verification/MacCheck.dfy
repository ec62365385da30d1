/** How the results of many policies become one: `mac_error_select`, `MAC_CHECK` and `MAC_GRANT`. */
module MacCheck {
  import opened Errno
  import opened PolicyList
  import PolicyWalk

  function Select(error1: int, error2: int): int {
    if error1 == EDEADLK || error2 == EDEADLK then EDEADLK
    else if error1 == EINVAL || error2 == EINVAL then EINVAL
    else if error1 == ESRCH || error2 == ESRCH then ESRCH
    else if error1 == ENOENT || error2 == ENOENT then ENOENT
    else if error1 == EACCES || error2 == EACCES then EACCES
    else if error1 == EPERM || error2 == EPERM then EPERM
    else if error1 != 0 then error1
    else error2
  }

  /** Precedence: the six named errors, then any other error, then success. */
  function Rank(error: int): int {
    if error == EDEADLK then 7
    else if error == EINVAL then 6
    else if error == ESRCH then 5
    else if error == ENOENT then 4
    else if error == EACCES then 3
    else if error == EPERM then 2
    else if error != 0 then 1
    else 0
  }

  lemma SelectIsAssociative(a: int, b: int, c: int)
    ensures Select(Select(a, b), c) == Select(a, Select(b, c))
    ensures Rank(Select(a, b)) == (if Rank(a) >= Rank(b) then Rank(a) else Rank(b))
    ensures Select(a, b) == if Rank(a) >= Rank(b) then a else b
  {
  }

  /** A policy's hook for one check: not provided, or the result it returns. */
  datatype Hook = Absent | Returns(error: int)

  /** `error` is the verdict of the results in `hooks`: the highest rank among them, and among
      results without a name of their own the last. */
  ghost predicate IsVerdict(hooks: seq<Hook>, error: int) {
    && (forall i :: 0 <= i < |hooks| && hooks[i].Returns? ==> Rank(hooks[i].error) <= Rank(error))
    && (error != 0 ==> exists i :: 0 <= i < |hooks| && hooks[i] == Returns(error) && IsLast(hooks, i, error))
  }

  ghost predicate IsLast(hooks: seq<Hook>, i: int, error: int)
    requires 0 <= i < |hooks|
  {
    Rank(error) == 1 ==> forall k :: i < k < |hooks| && hooks[k].Returns? ==> hooks[k].error == 0
  }

  /** `MAC_CHECK`: every hook is consulted, in order. */
  method Check(hooks: seq<Hook>) returns (error: int)
    ensures IsVerdict(hooks, error)
  {
    error := 0;
    ghost var at := 0;
    for i := 0 to |hooks|
      invariant forall k :: 0 <= k < i && hooks[k].Returns? ==> Rank(hooks[k].error) <= Rank(error)
      invariant error != 0 ==> 0 <= at < i && hooks[at] == Returns(error)
      invariant Rank(error) == 1 ==> forall k :: at < k < i && hooks[k].Returns? ==> hooks[k].error == 0
    {
      if hooks[i].Returns? {
        var step := hooks[i].error;
        if Rank(step) > Rank(error) || (Rank(step) == 1 && Rank(error) == 1) {
          at := i;
        }
        error := Select(step, error);
      }
    }
    if error != 0 {
      assert hooks[at] == Returns(error) && IsLast(hooks, at, error);
    }
  }

  /** Deadlock, bad argument, no such process, no such file, no access, not permitted: the errors that take
      precedence, highest first. */
  const PRECEDENCE: seq<int> := [11, 22, 3, 2, 13, 1]

  /** The first of these that any hook returns is the verdict. */
  lemma NamedFirst(hooks: seq<Hook>, error: int, i: int)
    requires IsVerdict(hooks, error)
    requires 0 <= i < 6 && Returns(PRECEDENCE[i]) in hooks
    requires forall j :: 0 <= j < i ==> Returns(PRECEDENCE[j]) !in hooks
    ensures error == PRECEDENCE[i]
  {
    hide Rank;
    RankIs(error);
    var k :| 0 <= k < |hooks| && hooks[k] == Returns(PRECEDENCE[i]);
    assert Returns(error) in hooks;
    assert forall j :: 0 <= j < i ==> error != PRECEDENCE[j];
    assert error == PRECEDENCE[7 - Rank(error)];
  }

  ghost predicate AllZero(hooks: seq<Hook>) {
    forall i :: 0 <= i < |hooks| && hooks[i].Returns? ==> hooks[i].error == 0
  }

  /** The precedence is the rank, and no other error has one of these. */
  lemma RankIs(error: int)
    ensures forall i :: 0 <= i < 6 ==> Rank(PRECEDENCE[i]) == 7 - i
    ensures error != 0 && (forall i :: 0 <= i < 6 ==> error != PRECEDENCE[i]) ==> Rank(error) == 1
    ensures forall i :: 0 <= i < 6 && Rank(error) == 7 - i ==> error == PRECEDENCE[i]
    ensures 0 <= Rank(error) <= 7 && (Rank(error) == 0 <==> error == 0)
  {
    var p := PRECEDENCE;
    assert p[0] == 11 && p[1] == 22 && p[2] == 3 && p[3] == 2 && p[4] == 13 && p[5] == 1;
  }

  /** If none of them is returned, the verdict is the last error there is, or 0. */
  lemma UnnamedLast(hooks: seq<Hook>, error: int)
    requires IsVerdict(hooks, error)
    requires forall j :: 0 <= j < 6 ==> Returns(PRECEDENCE[j]) !in hooks
    ensures error == 0 ==> AllZero(hooks)
    ensures error != 0 ==>
      exists i :: 0 <= i < |hooks| && hooks[i] == Returns(error) && AllZero(hooks[i + 1..])
  {
    if error != 0 {
      assert Returns(error) in hooks;
      RankIs(error);
      var i :| 0 <= i < |hooks| && hooks[i] == Returns(error) && IsLast(hooks, i, error);
      assert AllZero(hooks[i + 1..]);
    } else {
      VerdictZero(hooks, error);
    }
  }

  /** A verdict is 0 exactly if every result is. */
  lemma VerdictZero(hooks: seq<Hook>, error: int)
    requires IsVerdict(hooks, error)
    ensures error == 0 <==> forall i :: 0 <= i < |hooks| && hooks[i].Returns? ==> hooks[i].error == 0
  {
    if error != 0 {
      var i :| 0 <= i < |hooks| && hooks[i] == Returns(error) && IsLast(hooks, i, error);
    }
  }

  lemma NotBelow(hooks: seq<Hook>, error: int, hooks': seq<Hook>, error': int)
    requires multiset(hooks) == multiset(hooks') && IsVerdict(hooks, error) && IsVerdict(hooks', error')
    ensures Rank(error) <= Rank(error')
  {
    if error != 0 {
      var i :| 0 <= i < |hooks| && hooks[i] == Returns(error) && IsLast(hooks, i, error);
      assert hooks[i] in multiset(hooks);
      assert Returns(error) in hooks';
    }
  }

  /** A verdict with a name, or success, does not depend on the order of the policies. */
  lemma OrderIrrelevant(hooks: seq<Hook>, error: int, hooks': seq<Hook>, error': int)
    requires multiset(hooks) == multiset(hooks') && IsVerdict(hooks, error) && IsVerdict(hooks', error')
    requires Rank(error) != 1
    ensures error' == error
  {
    NotBelow(hooks, error, hooks', error');
    NotBelow(hooks', error', hooks, error);
  }

  /** `MAC_GRANT`: granted exactly if some hook answers 0. */
  method Grant(hooks: seq<Hook>) returns (error: int)
    ensures error == (if Returns(0) in hooks then 0 else EPERM)
  {
    error := EPERM;
    for i := 0 to |hooks|
      invariant error == if Returns(0) in hooks[..i] then 0 else EPERM
    {
      if hooks[i].Returns? {
        if hooks[i].error == 0 {
          error := 0;
        }
      }
    }
    assert hooks[..|hooks|] == hooks;
  }

  /** The results a walk collected, in the order of its visits. */
  ghost function Collected(seen: seq<(int, Entry)>, answer: Entry -> Hook): (hooks: seq<Hook>)
    ensures |hooks| == |seen|
  {
    seq(|seen|, i requires 0 <= i < |seen| => answer(seen[i].1))
  }

  /** A policy loaded at `h` for the whole of a walk. */
  ghost predicate Stays(run: seq<PolicyWalk.System>, sched: seq<int>, t: int, h: int, e: Entry) {
    && PolicyWalk.Run(run, sched) && PolicyWalk.WholeWalk(run, t)
    && forall k :: 0 <= k < |run| ==> PolicyWalk.LoadedAt(run[k].g, h, e)
  }

  /** The results of the hooks that a whole walk ran. */
  ghost function Results(run: seq<PolicyWalk.System>, t: int, answer: Entry -> Hook): seq<Hook>
    requires PolicyWalk.WholeWalk(run, t)
  {
    Collected(run[|run| - 1].threads[t].seen, answer)
  }

  lemma Asked(run: seq<PolicyWalk.System>, sched: seq<int>, t: int, h: int, e: Entry, answer: Entry -> Hook)
    requires Stays(run, sched, t, h, e) && !PolicyWalk.Overtaken(run, sched, t, h)
    ensures answer(e) in Results(run, t, answer)
  {
    hide PolicyWalk.Run, PolicyWalk.Overtaken;
    PolicyWalk.VisitedOnce(run, sched, t, h, e);
    var seen := run[|run| - 1].threads[t].seen;
    var j :| 0 <= j < |seen| && seen[j] == (h, e);
    assert Collected(seen, answer)[j] == answer(e);
  }

  /** No late load or unload hides a refusal: if a policy that stays loaded for the whole walk answers
      with an error, the check fails, with an error that ranks at least as high, unless the walk was
      overtaken between its unlocked reads. */
  lemma RefusalHolds(run: seq<PolicyWalk.System>, sched: seq<int>, t: int, h: int, e: Entry,
                     answer: Entry -> Hook, error: int)
    requires Stays(run, sched, t, h, e) && !PolicyWalk.Overtaken(run, sched, t, h)
    requires answer(e).Returns? && answer(e).error != 0 && IsVerdict(Results(run, t, answer), error)
    ensures error != 0 && Rank(error) >= Rank(answer(e).error)
  {
    hide PolicyWalk.Run, PolicyWalk.Overtaken;
    Asked(run, sched, t, h, e, answer);
  }

  /** Nor a grant: if such a policy answers 0, `MAC_GRANT` finds it. */
  lemma GrantHolds(run: seq<PolicyWalk.System>, sched: seq<int>, t: int, h: int, e: Entry, answer: Entry -> Hook)
    requires Stays(run, sched, t, h, e) && !PolicyWalk.Overtaken(run, sched, t, h) && answer(e) == Returns(0)
    ensures Returns(0) in Results(run, t, answer)
  {
    hide PolicyWalk.Run, PolicyWalk.Overtaken;
    Asked(run, sched, t, h, e, answer);
  }

  /** Answers that single out the policy of `e`. */
  ghost function OnlyOf(e: Entry, own: Hook, other: Hook): Entry -> Hook {
    x => if PolicyWalk.SamePolicy(x, e) then own else other
  }

  /** When the walk was overtaken, both fail: whatever the policy answers, there are answers of the others
      with which the check succeeds and the grant is refused. */
  lemma OvertakenLoses(run: seq<PolicyWalk.System>, sched: seq<int>, t: int, h: int, e: Entry, own: Hook)
    requires Stays(run, sched, t, h, e) && PolicyWalk.Overtaken(run, sched, t, h)
    ensures OnlyOf(e, own, Returns(0))(e) == own && IsVerdict(Results(run, t, OnlyOf(e, own, Returns(0))), 0)
    ensures Returns(0) !in Results(run, t, OnlyOf(e, own, Returns(EPERM)))
  {
    hide PolicyWalk.Run, PolicyWalk.Overtaken;
    PolicyWalk.VisitedOnce(run, sched, t, h, e);
    assert PolicyWalk.LoadedAt(run[0].g, h, e);
  }
}
