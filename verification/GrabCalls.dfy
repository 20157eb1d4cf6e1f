/**
 What each call and each waking does, told by the calls made before it (src/keyboard.rs:147-232, 282-413).

 The owner record keeps a time and a flag; here they are replaced by the Runs in the history.
 */
module GrabCalls {
  import opened Prelude
  import opened GrabOwnership
  import opened GrabTiming

  /** Every Run of `s` before step `k` lies at least 300 ms back. */
  ghost predicate RunsAreOld(states: seq<System>, labels: seq<Label>, k: nat, s: Session)
    requires |states| == |labels| + 1 && k < |labels|
  {
    forall j: nat, t :: j < k && RunAt(states, labels, j, s, t) ==> states[k].now - t >= 300
  }

  /** The last Run of `s` before step `k` was made at time `t`. */
  ghost predicate LastRunAt(states: seq<System>, labels: seq<Label>, k: nat, s: Session, t: int) {
    && (exists j: nat :: j < k && RunAt(states, labels, j, s, t))
    && forall j: nat, u :: j < k && RunAt(states, labels, j, s, u) ==> u <= t
  }

  /** The debounce time of an owner is the time of its last Run. */
  lemma OwnersLastRun(p: Platform, states: seq<System>, labels: seq<Label>, k: nat, s: Session) returns (t: int)
    requires IsRun(p, states, labels) && k < |labels| && states[k].grab.owner == Some(s)
    ensures LastRunAt(states, labels, k, s, t) && states[k].grab.lastGrab == Some(t) && t <= states[k].now
    ensures RunsAreOld(states, labels, k, s) <==> states[k].now - t >= 300
  {
    var j := LastGrabIsARun(p, states, labels, k, s);
    t := states[k].grab.lastGrab.value;
    assert RunAt(states, labels, j, s, t);
    forall m: nat, u | m < k && RunAt(states, labels, m, s, u) ensures u <= t {
      LastGrabIsLatest(p, states, labels, k, s, m, u);
    }
    InvAlongRun(p, INITIAL, states, labels, k);
  }

  /** Linux queues an operation where the grab changes hands. */
  function Queued(p: Platform, x: System, op: Op): multiset<Op> {
    if p == Linux then x.ops + multiset{op} else x.ops
  }

  predicate IsReleased(p: Platform, x: System, y: System) {
    y == x.(grab := Grab(None, None, false, false), ops := Queued(p, x, DisableIfReleased), workers := y.workers)
  }

  // ---------- the calls ----------

  /**
   A Wait of the owner releases at once exactly on Windows or when all its Runs are old. Otherwise a release is pending
   afterwards, with one worker made for it, due 350 ms after the last Run, unless one was pending before.
   */
  lemma WaitReleasesIff(p: Platform, states: seq<System>, labels: seq<Label>, k: nat, s: Session)
    requires IsRun(p, states, labels) && k < |labels| && labels[k] == Call(Wait, s)
    requires states[k].grab.owner == Some(s)
    ensures var x, y := states[k], states[k + 1];
            && (ReleasesAt(states, labels, k, s) <==> p == Windows || RunsAreOld(states, labels, k, s))
            && (ReleasesAt(states, labels, k, s) ==> IsReleased(p, x, y) && y.workers == x.workers)
            && (!ReleasesAt(states, labels, k, s) && x.grab.pending ==> y == x)
            && (!ReleasesAt(states, labels, k, s) && !x.grab.pending ==>
                  exists t :: LastRunAt(states, labels, k, s, t) &&
                              y == x.(grab := x.grab.(pending := true), workers := x.workers + multiset{Worker(s, t + 350)}))
  {
    assert StepAt(p, states, labels, k);
    var t := OwnersLastRun(p, states, labels, k, s);
    hide IsRun, RunsAreOld, LastRunAt, StepAt, Next;
    WaitTakesEffect(p, states[k], s, t);
  }

  lemma WaitTakesEffect(p: Platform, x: System, s: Session, t: int)
    requires x.grab.owner == Some(s) && x.grab.lastGrab == Some(t)
    ensures var y := Next(p, x, Call(Wait, s));
            if p == Windows || x.now - t >= 300 then IsReleased(p, x, y) && y.workers == x.workers
            else if x.grab.pending then y == x
            else y == x.(grab := x.grab.(pending := true), workers := x.workers + multiset{Worker(s, t + 350)})
  {
    hide Change, Next, QueuedOp, Spawned, AfterCall;
    WaitChanges(p, x.grab, s, t, x.now);
    var (g, o) := Change(p, x.grab, Wait, s, x.now);
    CallIs(p, x, Wait, s, g, o);
    WaitLeaves(p, o, s, t, x.now);
    NothingAdded(x.ops);
    NothingAdded(x.workers);
  }

  lemma CallIs(p: Platform, x: System, req: Request, s: Session, g: Grab, o: Outcome)
    requires Change(p, x.grab, req, s, x.now) == (g, o)
    ensures Next(p, x, Call(req, s))
            == x.(grab := g, ops := x.ops + QueuedOp(p, o, s), workers := x.workers + Spawned(o, s, x.now))
  {
    hide Change, QueuedOp, Spawned;
  }

  lemma WaitLeaves(p: Platform, o: Outcome, s: Session, t: int, now: int)
    requires o in {Released, Debounced(None), Debounced(Some(t + 350 - now))}
    ensures QueuedOp(p, o, s) == if p == Linux && o == Released then multiset{DisableIfReleased} else multiset{}
    ensures Spawned(o, s, now) == if o == Debounced(Some(t + 350 - now)) then multiset{Worker(s, t + 350)} else multiset{}
  {
  }

  lemma NothingAdded<T>(m: multiset<T>)
    ensures m + multiset{} == m
  {
  }

  lemma WaitChanges(p: Platform, g: Grab, s: Session, t: int, now: int)
    requires g.owner == Some(s) && g.lastGrab == Some(t)
    ensures Change(p, g, Wait, s, now) ==
            if p == Windows || now - t >= 300 then (Grab(None, None, false, false), Released)
            else if g.pending then (g, Debounced(None))
            else (g.(pending := true), Debounced(Some(t + 350 - now)))
  {
  }

  /** A Run makes its session the owner from now on, and takes a pending release back only from another session. */
  lemma RunTakesGrab(p: Platform, states: seq<System>, labels: seq<Label>, k: nat, s: Session)
    requires IsRun(p, states, labels) && k < |labels| && labels[k] == Call(Run, s)
    ensures var x, y := states[k], states[k + 1];
            var kept := x.grab.owner == Some(s);
            && y.grab == Grab(Some(s), Some(x.now), kept && x.grab.pending, true)
            && y == x.(grab := y.grab, ops := if kept then x.ops else Queued(p, x, ApplyRun(s, x.grab.owner.Some?)))
  {
    assert StepAt(p, states, labels, k);
    InvAlongRun(p, INITIAL, states, labels, k);
    hide IsRun, StepAt;
    var x := states[k];
    NothingAdded(x.ops);
    NothingAdded(x.workers);
  }

  /** Ready, Exit and the Wait of a session that is not the owner change nothing. */
  lemma OtherCallsDoNothing(p: Platform, states: seq<System>, labels: seq<Label>, k: nat, req: Request, s: Session)
    requires IsRun(p, states, labels) && k < |labels| && labels[k] == Call(req, s)
    requires req == Ready || req == Exit || (req == Wait && states[k].grab.owner != Some(s))
    ensures states[k + 1] == states[k]
  {
    assert StepAt(p, states, labels, k);
    var x := states[k];
    NothingAdded(x.ops);
    NothingAdded(x.workers);
  }

  /**
   A worker that wakes is gone if its session is not the owner; otherwise it releases exactly when all Runs of the session
   are old, and sleeps on until 350 ms after the last of them when they are not.
   */
  lemma WakeReleasesIff(p: Platform, states: seq<System>, labels: seq<Label>, k: nat, w: Worker)
    requires IsRun(p, states, labels) && k < |labels| && labels[k] == Wake(w)
    ensures w in states[k].workers && w.deadline <= states[k].now
    ensures var x, y, s := states[k], states[k + 1], w.session;
            var rest := x.workers - multiset{w};
            && (x.grab.owner != Some(s) ==> y == x.(workers := rest))
            && (x.grab.owner == Some(s) ==>
                  && (ReleasesAt(states, labels, k, s) <==> RunsAreOld(states, labels, k, s))
                  && (ReleasesAt(states, labels, k, s) ==> IsReleased(p, x, y) && y.workers == rest)
                  && (!ReleasesAt(states, labels, k, s) ==>
                        exists t :: LastRunAt(states, labels, k, s, t) &&
                                    y == x.(workers := rest + multiset{Worker(s, t + 350)})))
  {
    assert StepAt(p, states, labels, k);
    var x, s := states[k], w.session;
    if x.grab.owner == Some(s) {
      var t := OwnersLastRun(p, states, labels, k, s);
      hide IsRun, RunsAreOld, LastRunAt, StepAt;
      NothingAdded(x.ops);
    } else {
      hide IsRun, StepAt;
      NothingAdded(x.ops);
      NothingAdded(x.workers - multiset{w});
    }
  }

  // ---------- who owns the grab ----------

  /** `s` has made a Run, and since then no other session has and `s` has not been released. */
  ghost predicate Holds(states: seq<System>, labels: seq<Label>, i: nat, s: Session)
    requires |states| == |labels| + 1 && i <= |labels|
  {
    exists j: nat :: j < i && RunAndKept(states, labels, j, i, s)
  }

  ghost predicate RunAndKept(states: seq<System>, labels: seq<Label>, j: nat, i: nat, s: Session)
    requires |states| == |labels| + 1 && i <= |labels|
  {
    j < i && IsRunOf(labels[j], s) && forall m :: j < m < i ==> !IsHandoff(labels[m], s) && !ReleasesAt(states, labels, m, s)
  }

  /** Ownership follows from the Runs and the releases alone. */
  lemma {:induction false} OwnerIsLastRun(p: Platform, states: seq<System>, labels: seq<Label>, i: nat, s: Session)
    requires IsRun(p, states, labels) && i < |states|
    ensures states[i].grab.owner == Some(s) <==> Holds(states, labels, i, s)
  {
    if i > 0 {
      var k: nat := i - 1;
      OwnerIsLastRun(p, states, labels, k, s);
      assert StepAt(p, states, labels, k);
      OwnerSteps(p, states[k], labels[k], s);
      HoldsStep(states, labels, k, s);
      hide IsRun, Next, Enabled, IsRunOf, IsHandoff, Holds;
    }
  }

  lemma HoldsStep(states: seq<System>, labels: seq<Label>, k: nat, s: Session)
    requires |states| == |labels| + 1 && k < |labels|
    ensures Holds(states, labels, k + 1, s) <==>
            IsRunOf(labels[k], s) ||
            (Holds(states, labels, k, s) && !IsHandoff(labels[k], s) && !ReleasesAt(states, labels, k, s))
  {
    hide IsRunOf, IsHandoff, ReleasesAt;
    if IsRunOf(labels[k], s) {
      assert RunAndKept(states, labels, k, k + 1, s);
    }
    if Holds(states, labels, k, s) && !IsHandoff(labels[k], s) && !ReleasesAt(states, labels, k, s) {
      var j: nat :| j < k && RunAndKept(states, labels, j, k, s);
      assert RunAndKept(states, labels, j, k + 1, s);
    }
    if Holds(states, labels, k + 1, s) && !IsRunOf(labels[k], s) {
      var j: nat :| j < k + 1 && RunAndKept(states, labels, j, k + 1, s);
      assert RunAndKept(states, labels, j, k, s);
      assert !IsHandoff(labels[k], s) && !ReleasesAt(states, labels, k, s);
    }
  }

  /** A step gives the grab to a session only by its Run, and takes it only by a handoff or a release. */
  lemma OwnerSteps(p: Platform, x: System, l: Label, s: Session)
    requires Enabled(x, l)
    ensures var y := Next(p, x, l);
            && (IsRunOf(l, s) ==> y.grab.owner == Some(s))
            && (IsHandoff(l, s) ==> y.grab.owner != Some(s))
            && (!IsRunOf(l, s) && y.grab.owner == Some(s) ==> x.grab.owner == Some(s))
            && (x.grab.owner == Some(s) && !IsHandoff(l, s) && y.grab.owner.Some? ==> y.grab.owner == Some(s))
  {
    StepGrab(p, x, l);
    hide Next, Enabled;
    OwnerAfter(p, x.grab, l, x.now, s);
  }

  lemma OwnerAfter(p: Platform, g: Grab, l: Label, now: int, s: Session)
    ensures var owner := GrabAfter(p, g, l, now).owner;
            && (IsRunOf(l, s) ==> owner == Some(s))
            && (IsHandoff(l, s) ==> owner != Some(s))
            && (!IsRunOf(l, s) && owner == Some(s) ==> g.owner == Some(s))
            && (g.owner == Some(s) && !IsHandoff(l, s) && owner.Some? ==> owner == Some(s))
  {
  }

  // ---------- operations on the OS grab ----------

  /** An operation of a session that is not the owner any more, or a disabling with an owner, does nothing. */
  lemma StaleOpsDoNothing(x: System, op: Op)
    requires Enabled(x, CheckOp(op))
    requires match op case ApplyRun(s, _) => x.grab.owner != Some(s) case DisableIfReleased => x.grab.owner.Some?
    ensures Next(Linux, x, CheckOp(op)) == x.(ops := x.ops - multiset{op})
  {
  }

  /** The operation of an owner switches the OS grab on, and first off if the grab was taken from another session. */
  lemma OwnersOpRegrabs(x: System, s: Session, disableFirst: bool)
    requires Enabled(x, CheckOp(ApplyRun(s, disableFirst))) && x.grab.owner == Some(s)
    ensures var y := Next(Linux, x, CheckOp(ApplyRun(s, disableFirst)));
            && Enabled(y, Act) && y.osGrabbed == x.osGrabbed && y.ops == x.ops - multiset{ApplyRun(s, disableFirst)}
            && var z := Next(Linux, y, Act);
               && (!disableFirst ==> z == y.(osGrabbed := true, flight := Idle))
               && (disableFirst ==> !z.osGrabbed && Enabled(z, Act) &&
                                    Next(Linux, z, Act) == y.(osGrabbed := true, flight := Idle))
  {
  }
}
