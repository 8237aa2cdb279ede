/**
 `ScopeRunner`: locks that are shared until `stop`, which waits for them and then refuses
 all others.

 Any number of threads may be inside `continue_lock`, the destructor of a lock, or `stop`
 at once. Each call is an operation with its own program counter, and every access to the
 atomic count is one step. `compare_exchange_weak` may fail even if the count is as expected.
 */
module ScopeRunner {

  const STOPPED := -1

  datatype Operation =
    | LockEntered                // continue_lock, before the count is loaded
    | LockLoop(expected: int)    // at the loop test with the value last seen
    | LockDenied                 // returned nullptr
    | LockHeld                   // returned a lock, which is alive
    | LockReleased               // the lock was destroyed
    | StopLoop(expected: int)    // stop, before the exchange
    | StopFailed(expected: int)  // after a failed exchange, with the value seen
    | StopReturned

  datatype State = State(count: int, ops: map<nat, Operation>)

  ghost predicate Init(s: State) {
    s.count == 0 && s.ops == map[]
  }

  /** One step of one operation: where it goes and what becomes of the count. */
  ghost predicate Moves(before: Operation, count: int, after: Operation, count': int) {
    match before
    case LockEntered => after == LockLoop(count) && count' == count
    case LockLoop(expected) =>
      if expected < 0 then after == LockDenied && count' == count
      else
        || (count == expected && count' == expected + 1 && after == LockHeld)
        || (count' == count && after == LockLoop(count))
    case LockHeld => after == LockReleased && count' == count - 1
    case StopLoop(expected) =>
      || (count == expected && count' == STOPPED && after == StopReturned)
      || (count' == count && after == StopFailed(count))
    case StopFailed(expected) => count' == count && after == if expected < 0 then StopReturned else StopLoop(0)
    case _ => false
  }

  /** A call of `continue_lock` or of `stop` begins. */
  predicate Begins(op: Operation) {
    op == LockEntered || op == StopLoop(0)
  }

  ghost predicate StepOf(s: State, s': State, id: nat) {
    id in s'.ops && s'.ops == s.ops[id := s'.ops[id]] &&
    if id in s.ops then Moves(s.ops[id], s.count, s'.ops[id], s'.count)
    else s'.count == s.count && Begins(s'.ops[id])
  }

  ghost predicate Step(s: State, s': State) {
    exists id :: StepOf(s, s', id)
  }

  /** Any interleaving of any number of operations. */
  ghost predicate IsRun(run: seq<State>) {
    run != [] && Init(run[0]) && forall i :: 0 <= i < |run| - 1 ==> Step(run[i], run[i + 1])
  }

  // ----- the invariant

  function Live(s: State): set<nat> {
    set id | id in s.ops && s.ops[id].LockHeld?
  }

  /** A stop has exchanged the count. */
  predicate Stopped(s: State) {
    s.count == STOPPED
  }

  /** Operations that have seen a negative count, or returned because of one. */
  predicate SawStop(op: Operation) {
    match op
    case LockLoop(expected) => expected < 0
    case StopFailed(expected) => expected < 0
    case LockDenied => true
    case StopReturned => true
    case _ => false
  }

  ghost predicate Inv(s: State) {
    (if Stopped(s) then Live(s) == {} else s.count == |Live(s)|) &&
    forall id :: id in s.ops ==> (SawStop(s.ops[id]) ==> Stopped(s)) && ExpectsZero(s.ops[id])
  }

  /** An exchange of `stop` only ever expects the count 0. */
  predicate ExpectsZero(op: Operation) {
    op.StopLoop? ==> op.expected == 0
  }

  lemma LiveAfter(s: State, s': State, id: nat)
    requires StepOf(s, s', id)
    ensures Live(s') == if s'.ops[id].LockHeld? then Live(s) + {id} else Live(s) - {id}
  {
    forall x ensures x in Live(s') <==> if x == id then s'.ops[id].LockHeld? else x in Live(s) {
    }
  }

  /** Once the count is -1 it stays so, and no lock is granted. */
  lemma StoppedForever(s: State, s': State)
    requires Inv(s) && Stopped(s) && Step(s, s')
    ensures Stopped(s') && Live(s') == {}
  {
    var id :| StepOf(s, s', id);
    LiveAfter(s, s', id);
    assert id in s.ops && s.ops[id].LockHeld? ==> id in Live(s);
  }

  lemma StepCounts(s: State, s': State, id: nat)
    requires Inv(s) && StepOf(s, s', id) && !Stopped(s)
    ensures if Stopped(s') then Live(s') == {} else s'.count == |Live(s')|
  {
    LiveAfter(s, s', id);
    if id in s.ops && s.ops[id].LockHeld? {
      assert id in Live(s);
      assert |Live(s) - {id}| == |Live(s)| - 1;
    } else {
      assert id !in Live(s);
      if s'.ops[id].LockHeld? {
        assert |Live(s) + {id}| == |Live(s)| + 1;
      } else {
        assert Live(s) - {id} == Live(s);
        assert s.count == 0 ==> Live(s) == {};
      }
    }
  }

  lemma StepKeepsInv(s: State, s': State)
    requires Inv(s) && Step(s, s')
    ensures Inv(s')
  {
    var id :| StepOf(s, s', id);
    if Stopped(s) {
      StoppedForever(s, s');
    } else {
      StepCounts(s, s', id);
    }
    forall x | x in s'.ops ensures (SawStop(s'.ops[x]) ==> Stopped(s')) && ExpectsZero(s'.ops[x]) {
      if x != id { assert x in s.ops && s'.ops[x] == s.ops[x]; }
    }
  }

  /** In every state of every run the count is the number of live locks, or -1 with no
      live lock; and whoever was refused or has returned from `stop` saw the latter. */
  lemma {:induction false} RunInvariant(run: seq<State>, i: nat)
    requires IsRun(run) && i < |run|
    ensures Inv(run[i])
    decreases i
  {
    if i == 0 {
      assert Live(run[0]) == {};
    } else {
      RunInvariant(run, i - 1);
      assert Step(run[i - 1], run[i - 1 + 1]);
      StepKeepsInv(run[i - 1], run[i]);
    }
  }

  /** After a `stop` has won, no lock is alive and none is granted, for the rest of the run. */
  lemma {:induction false} NoLockAfter(run: seq<State>, i: nat, j: nat)
    requires IsRun(run) && i <= j < |run| && Stopped(run[i])
    ensures Stopped(run[j]) && Live(run[j]) == {}
    decreases j
  {
    RunInvariant(run, j);
    if i < j {
      NoLockAfter(run, i, j - 1);
      RunInvariant(run, j - 1);
      assert Step(run[j - 1], run[j - 1 + 1]);
      StoppedForever(run[j - 1], run[j]);
    }
  }

  /** What `stop` promises: once any call of it has returned, no lock is alive ever after. */
  lemma StopIsFinal(run: seq<State>, i: nat, id: nat, j: nat)
    requires IsRun(run) && i <= j < |run| && id in run[i].ops && run[i].ops[id] == StopReturned
    ensures Live(run[j]) == {}
  {
    RunInvariant(run, i);
    assert SawStop(run[i].ops[id]);
    NoLockAfter(run, i, j);
  }

  /** A lock is refused only after a `stop` has won. */
  lemma DeniedOnlyAfterStop(run: seq<State>, i: nat, id: nat)
    requires IsRun(run) && i < |run| && id in run[i].ops && run[i].ops[id] == LockDenied
    ensures Stopped(run[i])
  {
    RunInvariant(run, i);
    assert SawStop(run[i].ops[id]);
  }

  /** Every exchange of `stop` can win exactly if it has not been won and no lock is alive. */
  lemma StopCanWin(run: seq<State>, i: nat, id: nat)
    requires IsRun(run) && i < |run| && id in run[i].ops && run[i].ops[id] == StopLoop(0)
    ensures (exists s' :: StepOf(run[i], s', id) && s'.ops[id] == StopReturned) <==> !Stopped(run[i]) && Live(run[i]) == {}
  {
    RunInvariant(run, i);
    var s := run[i];
    if !Stopped(s) && Live(s) == {} {
      var s' := State(STOPPED, s.ops[id := StopReturned]);
      assert StepOf(s, s', id) && s'.ops[id] == StopReturned;
    }
    if Live(s) != {} {
      var x :| x in Live(s);
      assert |Live(s)| > 0;
    }
  }

  /** The exchange of `continue_lock` can win exactly if nothing has been stopped and the
      count is the value last seen, whatever the number of live locks. */
  lemma LockCanWin(run: seq<State>, i: nat, id: nat)
    requires IsRun(run) && i < |run| && id in run[i].ops && run[i].ops[id].LockLoop?
    ensures (exists s' :: StepOf(run[i], s', id) && s'.ops[id] == LockHeld) <==>
      !Stopped(run[i]) && run[i].ops[id].expected == run[i].count
  {
    RunInvariant(run, i);
    var s := run[i];
    var expected := s.ops[id].expected;
    assert SawStop(s.ops[id]) <==> expected < 0;
    if !Stopped(s) && expected == s.count {
      var s' := State(expected + 1, s.ops[id := LockHeld]);
      assert StepOf(s, s', id) && s'.ops[id] == LockHeld;
    }
  }

  /** A failed exchange tries again with the count it saw, so a lock that is not stopped
      can be granted in two steps. */
  lemma LockCanRetry(run: seq<State>, i: nat, id: nat) returns (s1: State, s2: State)
    requires IsRun(run) && i < |run| && id in run[i].ops && (run[i].ops[id].LockLoop? || run[i].ops[id].LockEntered?)
    requires !Stopped(run[i])
    ensures StepOf(run[i], s1, id) && StepOf(s1, s2, id) && s2.ops[id] == LockHeld && |Live(s2)| == |Live(run[i])| + 1
  {
    RunInvariant(run, i);
    var s := run[i];
    assert SawStop(s.ops[id]) <==> s.ops[id].LockLoop? && s.ops[id].expected < 0;
    s1 := State(s.count, s.ops[id := LockLoop(s.count)]);
    s2 := State(s.count + 1, s1.ops[id := LockHeld]);
    assert StepOf(s, s1, id) && StepOf(s1, s2, id);
    StepKeepsInv(s, s1);
    StepKeepsInv(s1, s2);
    LiveAfter(s, s1, id);
    assert id !in Live(s) && Live(s) - {id} == Live(s);
  }

  lemma Extend(run: seq<State>, s: State)
    requires IsRun(run) && Step(run[|run| - 1], s)
    ensures IsRun(run + [s])
  {
    var longer := run + [s];
    forall i | 0 <= i < |longer| - 1 ensures Step(longer[i], longer[i + 1]) {
      if i < |run| - 1 { assert Step(run[i], run[i + 1]); }
    }
  }

  predicate Below(s: State, n: nat) {
    forall id :: id in s.ops ==> id < n
  }

  /** Any number of locks can be alive at once. */
  lemma {:induction false} SharedLocks(n: nat) returns (run: seq<State>)
    ensures IsRun(run) && !Stopped(run[|run| - 1]) && |Live(run[|run| - 1])| == n
    ensures Below(run[|run| - 1], n)
  {
    if n == 0 {
      run := [State(0, map[])];
      assert Live(run[0]) == {};
    } else {
      run := SharedLocks(n - 1);
      var s := run[|run| - 1];
      var s0 := State(s.count, s.ops[n - 1 := LockEntered]);
      assert StepOf(s, s0, n - 1);
      Extend(run, s0);
      RunInvariant(run, |run| - 1);
      run := run + [s0];
      LiveAfter(s, s0, n - 1);
      assert Live(s) - {n - 1} == Live(s);
      var s1, s2 := LockCanRetry(run, |run| - 1, n - 1);
      Extend(run, s1);
      run := run + [s1];
      Extend(run, s2);
      run := run + [s2];
      RunInvariant(run, |run| - 1);
      assert |Live(s2)| > 0;
    }
  }
}
