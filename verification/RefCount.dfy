// A reference count changed by compare-and-swap, step by step, against its locked form.
module RefCount {
  import opened Wrappers

  // CRYPTO_REFCOUNT_MAX
  const REFCOUNT_MAX: nat := 0xffff_ffff

  // The locked form: what an operation does to the count, and what it returns. Releasing
  // at zero aborts.
  datatype Operation = Increment | Decrement

  datatype Outcome = Outcome(count: nat, zero: bool) | Abort

  function Locked(op: Operation, count: nat): Outcome {
    if op.Increment? then Outcome(if count < REFCOUNT_MAX then count + 1 else count, false) else
    if count == 0 then Abort else
    var now := if count < REFCOUNT_MAX then count - 1 else count;
    Outcome(now, now == 0)
  }

  // The count as the locked functions change it, under the lock.
  class LockedCount {
    var count: nat

    constructor (count: nat)
      ensures this.count == count
    {
      this.count := count;
    }

    method Inc()
      modifies this
      ensures Outcome(count, false) == Locked(Increment, old(count))
      ensures count == if old(count) < 0xffff_ffff then old(count) + 1 else old(count)
    {
      if count < REFCOUNT_MAX {
        count := count + 1;
      }
    }

    // None is the abort.
    method DecAndTestZero() returns (zero: Option<bool>)
      modifies this
      ensures match Locked(Decrement, old(count))
        case Abort => zero == None && count == old(count)
        case Outcome(now, z) => zero == Some(z) && count == now
      ensures count == if 0 < old(count) < 0xffff_ffff then old(count) - 1 else old(count)
      ensures zero == if old(count) == 0 then None else Some(count == 0)
    {
      if count == 0 {
        return None;
      }
      if count < REFCOUNT_MAX {
        count := count - 1;
      }
      zero := Some(count == 0);
    }
  }

  // Where a thread is: outside, at the load that starts a call, or in the loop with the
  // value it expects.
  datatype Place = Outside | AtLoad(op: Operation) | InLoop(op: Operation, expected: nat) | Aborted

  // A thread, and the references it owns.
  datatype Thread = Thread(place: Place, refs: nat)

  datatype Call = Call(thread: nat, op: Operation, zero: bool)

  // The shared count, the threads, and the calls that have returned, in order.
  datatype System = System(count: nat, threads: seq<Thread>, returned: seq<Call>)

  datatype Step =
    | Enter(op: Operation)
    | Load
    | Swap
    | SwapFails
    | ReturnSaturated
    | AbortAtZero
    | GiveTo(other: nat)

  // A thread enters a call only while it owns a reference; between calls it may hand one
  // to another thread. A swap succeeds only on the expected value, and may fail on any;
  // when it fails it loads the value there is.
  predicate Enabled(s: System, t: nat, step: Step) {
    t < |s.threads| &&
    var thread := s.threads[t];
    match step
    case Enter(op) => thread.place.Outside? && thread.refs > 0
    case Load => thread.place.AtLoad?
    case Swap =>
      && thread.place.InLoop? && thread.place.expected == s.count && thread.place.expected != REFCOUNT_MAX
      && (thread.place.op.Decrement? ==> thread.place.expected != 0)
    case SwapFails =>
      && thread.place.InLoop? && thread.place.expected != REFCOUNT_MAX
      && (thread.place.op.Decrement? ==> thread.place.expected != 0)
    case ReturnSaturated => thread.place.InLoop? && thread.place.expected == REFCOUNT_MAX
    case AbortAtZero => thread.place.InLoop? && thread.place.op.Decrement? && thread.place.expected == 0
    case GiveTo(other) => thread.place.Outside? && thread.refs > 0 && other < |s.threads| && other != t
  }

  // A call that returns changes what its thread owns.
  function Returned(s: System, t: nat, count: nat, op: Operation, zero: bool): System
    requires t < |s.threads|
  {
    var refs := s.threads[t].refs;
    var refs := if op.Increment? then refs + 1 else if refs > 0 then refs - 1 else 0;
    System(count, s.threads[t := Thread(Outside, refs)], s.returned + [Call(t, op, zero)])
  }

  function MoveTo(s: System, t: nat, place: Place): System
    requires t < |s.threads|
  {
    s.(threads := s.threads[t := s.threads[t].(place := place)])
  }

  function After(s: System, t: nat, step: Step): System
    requires Enabled(s, t, step)
  {
    var thread := s.threads[t];
    match step
    case Enter(op) => MoveTo(s, t, AtLoad(op))
    case Load => MoveTo(s, t, InLoop(thread.place.op, s.count))
    case Swap =>
      if thread.place.op.Increment? then Returned(s, t, s.count + 1, Increment, false)
      else Returned(s, t, s.count - 1, Decrement, s.count - 1 == 0)
    case SwapFails => MoveTo(s, t, InLoop(thread.place.op, s.count))
    case ReturnSaturated => Returned(s, t, s.count, thread.place.op, false)
    case AbortAtZero => MoveTo(s, t, Aborted)
    case GiveTo(other) =>
      var given := s.threads[t := thread.(refs := thread.refs - 1)];
      s.(threads := given[other := given[other].(refs := given[other].refs + 1)])
  }

  // The references that are owned.
  function Live(threads: seq<Thread>): nat { if threads == [] then 0 else threads[0].refs + Live(threads[1..]) }

  // None are owned exactly when no thread owns one.
  lemma {:induction false} NoneIsLive(threads: seq<Thread>)
    ensures Live(threads) == 0 <==> forall t :: 0 <= t < |threads| ==> threads[t].refs == 0
  {
    if threads != [] {
      NoneIsLive(threads[1..]);
      assert forall t :: 1 <= t < |threads| ==> threads[t] == threads[1..][t - 1];
    }
  }

  lemma {:induction false} LiveOfUpdate(threads: seq<Thread>, t: nat, now: Thread)
    requires t < |threads|
    ensures threads[t].refs <= Live(threads)
    ensures Live(threads[t := now]) == Live(threads) - threads[t].refs + now.refs
    decreases |threads|
  {
    var updated := threads[t := now];
    if t == 0 {
      assert updated[1..] == threads[1..];
    } else {
      assert updated[1..] == threads[1..][t - 1 := now];
      LiveOfUpdate(threads[1..], t - 1, now);
    }
  }

  // Inside a call a thread owns a reference, and a value it has loaded to release from is
  // not zero; the maximum, once loaded, is the count for ever. Below the maximum the
  // count is the number of references that are owned.
  ghost predicate ThreadSafe(thread: Thread, count: nat) {
    && !thread.place.Aborted? && (!thread.place.Outside? ==> thread.refs > 0)
    && (thread.place.InLoop? ==>
          && thread.place.expected <= REFCOUNT_MAX
          && (thread.place.op.Decrement? ==> thread.place.expected != 0)
          && (thread.place.expected == REFCOUNT_MAX ==> count == REFCOUNT_MAX))
  }

  ghost predicate Safe(s: System) {
    && s.count <= REFCOUNT_MAX && (s.count < REFCOUNT_MAX ==> s.count == Live(s.threads))
    && forall t :: 0 <= t < |s.threads| ==> ThreadSafe(s.threads[t], s.count)
  }

  // While any reference is owned the count is not zero.
  lemma OwnedIsCounted(s: System, t: nat)
    requires Safe(s) && t < |s.threads| && s.threads[t].refs > 0
    ensures s.count > 0
  {
    LiveOfUpdate(s.threads, t, s.threads[t]);
  }

  lemma StepIsSafe(s: System, t: nat, step: Step)
    requires Safe(s) && Enabled(s, t, step)
    ensures !step.AbortAtZero? && Safe(After(s, t, step))
  {
    var thread := s.threads[t];
    assert ThreadSafe(thread, s.count);
    if thread.refs > 0 { OwnedIsCounted(s, t); }
    if !step.GiveTo? && !step.AbortAtZero? {
      LiveOfUpdate(s.threads, t, After(s, t, step).threads[t]);
    } else if step.GiveTo? {
      GivingIsSafe(s, t, step.other);
    }
    hide Live;
  }

  lemma GivingIsSafe(s: System, t: nat, other: nat)
    requires Safe(s) && Enabled(s, t, GiveTo(other))
    ensures Safe(After(s, t, GiveTo(other)))
  {
    var thread := s.threads[t];
    var given := s.threads[t := thread.(refs := thread.refs - 1)];
    LiveOfUpdate(s.threads, t, thread.(refs := thread.refs - 1));
    LiveOfUpdate(given, other, given[other].(refs := given[other].refs + 1));
    assert ThreadSafe(s.threads[other], s.count);
    hide Live;
  }

  // Each step either leaves the count and the calls alone, or returns from a call: then
  // it does to the count just what the locked form does, at that moment, and returns the
  // same. It releases the last reference exactly when it returns one, unless the count
  // has saturated.
  lemma StepIsLocked(s: System, t: nat, step: Step)
    requires Safe(s) && Enabled(s, t, step)
    ensures
      var n := After(s, t, step);
      if step.Swap? || step.ReturnSaturated? then
        var op := s.threads[t].place.op;
        && n.returned[..|s.returned|] == s.returned && |n.returned| == |s.returned| + 1
        && var call := n.returned[|s.returned|];
           && call.thread == t && call.op == op && Locked(op, s.count) == Outcome(n.count, call.zero)
           && (n.count < REFCOUNT_MAX ==> (call.zero <==> op.Decrement? && Live(n.threads) == 0))
           && (call.zero ==> s.count < REFCOUNT_MAX)
      else n.count == s.count && n.returned == s.returned
    ensures s.count == REFCOUNT_MAX ==> After(s, t, step).count == REFCOUNT_MAX
  {
    StepIsSafe(s, t, step);
    assert ThreadSafe(s.threads[t], s.count);
    hide Live;
  }

  predicate CanReturn(s: System, t: nat) { Enabled(s, t, Swap) || Enabled(s, t, ReturnSaturated) }

  predicate CanGive(s: System, t: nat, other: nat) { Enabled(s, t, GiveTo(other)) }

  // No thread is ever stuck: one that owns a reference can enter either call, one in a call
  // can load, and one in the loop can return at once, or, as the count has moved on, after
  // one failing swap. So a thread that runs alone, and whose swaps do not fail without
  // need, returns.
  lemma AloneItReturns(s: System, t: nat)
    requires Safe(s) && t < |s.threads|
    ensures
      match s.threads[t].place
      case Outside => s.threads[t].refs >= 1 ==>
        && Enabled(s, t, Enter(Increment)) && Enabled(s, t, Enter(Decrement))
        && forall u :: 0 <= u < |s.threads| && u != t ==> CanGive(s, t, u)
      case AtLoad(_) => Enabled(s, t, Load) && CanReturn(After(s, t, Load), t)
      case InLoop(_, expected) =>
        if expected == s.count || expected == 0xffff_ffff then CanReturn(s, t)
        else Enabled(s, t, SwapFails) && CanReturn(After(s, t, SwapFails), t)
      case Aborted => false
  {
    assert ThreadSafe(s.threads[t], s.count);
    if s.threads[t].refs > 0 { OwnedIsCounted(s, t); }
    hide Live;
  }

  // The returned calls, made one after the other on the locked form.
  function Replay(calls: seq<Call>, count: nat): Option<nat>
    decreases |calls|
  {
    if calls == [] then Some(count) else
    var last := |calls| - 1;
    var before := Replay(calls[..last], count);
    if before.None? then None else
    var outcome := Locked(calls[last].op, before.value);
    if outcome.Outcome? && outcome.zero == calls[last].zero then Some(outcome.count) else None
  }

  // One reference, with one of the threads.
  predicate IsStart(s: System) {
    && s.count == 1 && s.returned == [] && Live(s.threads) == 1
    && forall t :: 0 <= t < |s.threads| ==> s.threads[t].place.Outside?
  }

  // Only the release of the last reference returns one; after it nothing returns, and
  // while the count is above zero no release has.
  ghost predicate LastRelease(s: System) {
    && (forall k :: 0 <= k < |s.returned| && s.returned[k].zero ==> k == |s.returned| - 1 && s.count == 0)
    && (s.count == 0 ==> s.returned != [] && s.returned[|s.returned| - 1].zero)
  }

  ghost predicate Follows(s: System, n: System) {
    exists t, step :: Enabled(s, t, step) && n == After(s, t, step)
  }

  ghost predicate IsRun(run: seq<System>) {
    run != [] && IsStart(run[0]) && forall k :: 0 <= k < |run| - 1 ==> Follows(run[k], run[k + 1])
  }

  lemma ReplayStep(s: System, t: nat, step: Step)
    requires Safe(s) && Enabled(s, t, step) && Replay(s.returned, 1) == Some(s.count) && LastRelease(s)
    ensures Replay(After(s, t, step).returned, 1) == Some(After(s, t, step).count) && LastRelease(After(s, t, step))
  {
    StepIsLocked(s, t, step);
    var n := After(s, t, step);
    if step.Swap? || step.ReturnSaturated? {
      assert ThreadSafe(s.threads[t], s.count);
      OwnedIsCounted(s, t);
      hide Live, ThreadSafe, Enabled, Safe, After;
      assert n.returned[..|s.returned|] == s.returned;
      assert forall k :: 0 <= k < |s.returned| ==> n.returned[k] == s.returned[k];
    }
  }

  // A run without its last step is a run.
  lemma LastStep(run: seq<System>) returns (t: nat, step: Step)
    requires IsRun(run) && |run| > 1
    ensures IsRun(run[..|run| - 1])
    ensures Enabled(run[|run| - 2], t, step) && run[|run| - 1] == After(run[|run| - 2], t, step)
  {
    var last := |run| - 1;
    assert Follows(run[last - 1], run[last]);
    t, step :| Enabled(run[last - 1], t, step) && run[last] == After(run[last - 1], t, step);
    hide Follows, Enabled, After, IsStart;
    var before := run[..last];
    forall k | 0 <= k < |before| - 1 ensures Follows(before[k], before[k + 1]) {
      assert Follows(run[k], run[k + 1]);
    }
  }

  // In every state of every run, over all interleavings and failures of the swap: no
  // thread has aborted; below the maximum the count is the number of references; the
  // calls that have returned are a run of the locked form, in the order in which they
  // took effect; and none but the last release has returned one.
  lemma {:induction false} EveryRun(run: seq<System>)
    requires IsRun(run)
    ensures
      var s := run[|run| - 1];
      && Safe(s) && Replay(s.returned, 1) == Some(s.count) && LastRelease(s)
    decreases |run|
  {
    var last := |run| - 1;
    if last > 0 {
      var t, step := LastStep(run);
      hide *;
      EveryRun(run[..last]);
      StepIsSafe(run[last - 1], t, step);
      ReplayStep(run[last - 1], t, step);
    } else {
      hide Live;
    }
  }

  // Once the count has reached the maximum it stays there.
  lemma {:induction false} SaturationIsPermanent(run: seq<System>, k: nat)
    requires IsRun(run) && k < |run| && run[k].count == REFCOUNT_MAX
    ensures run[|run| - 1].count == REFCOUNT_MAX
    decreases |run|
  {
    var last := |run| - 1;
    if k < last {
      var t, step := LastStep(run);
      hide *;
      EveryRun(run[..last]);
      SaturationIsPermanent(run[..last], k);
      StepIsLocked(run[last - 1], t, step);
    }
  }
}
