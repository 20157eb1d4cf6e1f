/** Debounce bounds of the grab protocol, over whole runs (src/keyboard.rs:118, 180-206, 301-310, 354-379). */
module GrabTiming {
  import opened Prelude
  import opened GrabOwnership

  /** Step `k` releases session `s`: it owned the grab before and nobody does afterwards. */
  ghost predicate ReleasesAt(states: seq<System>, labels: seq<Label>, k: int, s: Session)
    requires |states| == |labels| + 1
  {
    0 <= k < |labels| && states[k].grab.owner == Some(s) && states[k + 1].grab.owner.None?
  }

  predicate IsRunOf(l: Label, s: Session) {
    l == Call(Run, s)
  }

  predicate IsHandoff(l: Label, s: Session) {
    l.Call? && l.req == Run && l.session != s
  }

  // ---------- a release is never early ----------

  /** Step `j` is a Run of `s` made at time `t`. */
  ghost predicate RunAt(states: seq<System>, labels: seq<Label>, j: int, s: Session, t: int) {
    0 <= j < |labels| && j < |states| && IsRunOf(labels[j], s) && states[j].now == t
  }

  /** The debounce time of an owner is the time of one of its Runs ... */
  lemma {:induction false} LastGrabIsARun(p: Platform, states: seq<System>, labels: seq<Label>, i: nat, s: Session) returns (j: nat)
    requires IsRun(p, states, labels) && i < |states| && states[i].grab.owner == Some(s)
    ensures j < i && states[i].grab.lastGrab.Some? && RunAt(states, labels, j, s, states[i].grab.lastGrab.value)
  {
    if i == 0 {
      assert false;
    } else {
      assert StepAt(p, states, labels, i - 1);
      StepGrab(p, states[i - 1], labels[i - 1]);
      if IsRunOf(labels[i - 1], s) {
        j := i - 1;
      } else {
        OwnerStays(p, states[i - 1].grab, labels[i - 1], states[i - 1].now, s);
        j := LastGrabIsARun(p, states, labels, i - 1, s);
      }
    }
  }

  /** ... and none of its Runs came later. */
  lemma {:induction false} LastGrabIsLatest(p: Platform, states: seq<System>, labels: seq<Label>, i: nat, s: Session, j: nat, t: int)
    requires IsRun(p, states, labels) && i < |states| && states[i].grab.owner == Some(s)
    requires j < i && RunAt(states, labels, j, s, t)
    ensures states[i].grab.lastGrab.Some? && t <= states[i].grab.lastGrab.value
  {
    var x, l := states[i - 1], labels[i - 1];
    assert StepAt(p, states, labels, i - 1);
    StepGrab(p, x, l);
    if IsRunOf(l, s) {
      TimeIsMonotone(p, states, labels, j, i - 1);
    } else {
      OwnerStays(p, x.grab, l, x.now, s);
      LastGrabIsLatest(p, states, labels, i - 1, s, j, t);
    }
  }

  /** Only its own Run makes a session owner or moves its debounce time. */
  lemma OwnerStays(p: Platform, g: Grab, l: Label, now: int, s: Session)
    requires !IsRunOf(l, s) && GrabAfter(p, g, l, now).owner == Some(s)
    ensures g.owner == Some(s) && g.lastGrab == GrabAfter(p, g, l, now).lastGrab
  {
  }

  lemma {:induction false} TimeIsMonotone(p: Platform, states: seq<System>, labels: seq<Label>, j: nat, i: nat)
    requires IsRun(p, states, labels) && j <= i < |states|
    ensures states[j].now <= states[i].now
  {
    if j < i {
      TimeIsMonotone(p, states, labels, j, i - 1);
      assert StepAt(p, states, labels, i - 1);
      StepGrab(p, states[i - 1], labels[i - 1]);
    }
  }

  lemma ReleaseIsDebounced(p: Platform, g: Grab, l: Label, now: int)
    requires Debounces(p) && Coupled(g, now)
    requires g.owner.Some? && GrabAfter(p, g, l, now).owner.None?
    ensures now - g.lastGrab.value >= GRAB_DEBOUNCE_MS
  {
  }

  /** No release, immediate or deferred, happens less than 300 ms after any Run of the released owner. */
  lemma NoEarlyRelease(p: Platform, states: seq<System>, labels: seq<Label>, k: nat, j: nat, s: Session, t: int)
    requires Debounces(p) && IsRun(p, states, labels) && ReleasesAt(states, labels, k, s)
    requires j < k && RunAt(states, labels, j, s, t)
    ensures states[k].now - t >= GRAB_DEBOUNCE_MS
  {
    LastGrabIsLatest(p, states, labels, k, s, j, t);
    assert StepAt(p, states, labels, k);
    InvAlongRun(p, INITIAL, states, labels, k);
    StepGrab(p, states[k], labels[k]);
    ReleaseIsDebounced(p, states[k].grab, labels[k], states[k].now);
  }

  // ---------- a debounced Wait is not forgotten ----------

  /** Time never passes a sleeping worker's deadline without that worker having woken. */
  predicate OnTime(x: System, l: Label) {
    l.Tick? ==> forall w :: w in x.workers ==> x.now + l.ms <= w.deadline
  }

  ghost predicate IsOnTimeRun(p: Platform, states: seq<System>, labels: seq<Label>) {
    && IsRun(p, states, labels)
    && forall i :: 0 <= i < |labels| ==> OnTimeAt(states, labels, i)
  }

  ghost predicate OnTimeAt(states: seq<System>, labels: seq<Label>, i: nat) {
    i < |labels| && i < |states| && OnTime(states[i], labels[i])
  }

  const WORST_CASE_MS: int := GRAB_DEBOUNCE_MS + RETRY_SLACK_MS

  ghost predicate NoneOverdue(x: System) {
    forall w :: w in x.workers ==> x.now <= w.deadline
  }

  ghost predicate PromptWorker(x: System) {
    x.grab.pending ==> x.grab.owner.Some? && x.grab.lastGrab.Some? && exists w :: w in x.workers && IsPrompt(x, w)
  }

  predicate IsPrompt(x: System, w: Worker) {
    x.grab.owner == Some(w.session) && x.grab.lastGrab.Some? && w.deadline <= x.grab.lastGrab.value + WORST_CASE_MS
  }

  lemma {:induction false} OnTimeInv(p: Platform, states: seq<System>, labels: seq<Label>, i: nat)
    requires IsOnTimeRun(p, states, labels) && i < |states|
    ensures NoneOverdue(states[i]) && PromptWorker(states[i])
  {
    if i > 0 {
      OnTimeInv(p, states, labels, i - 1);
      InvAlongRun(p, INITIAL, states, labels, i - 1);
      assert StepAt(p, states, labels, i - 1) && OnTimeAt(states, labels, i - 1);
      StepKeepsPrompt(p, states[i - 1], labels[i - 1]);
    }
  }

  lemma StepKeepsPrompt(p: Platform, x: System, l: Label)
    requires NoneOverdue(x) && PromptWorker(x) && Coupled(x.grab, x.now) && Enabled(x, l) && OnTime(x, l)
    ensures NoneOverdue(Next(p, x, l)) && PromptWorker(Next(p, x, l))
  {
    match l
    case Call(req, s) => CallKeepsPrompt(p, x, req, s);
    case Wake(w) => WakeKeepsPrompt(p, x, w);
    case Tick(ms) => SameGrabKeepsPrompt(x, x.(now := x.now + ms));
    case CheckOp(op) => SameGrabKeepsPrompt(x, AfterCheck(x, op));
    case Act =>
      assert AfterAct(x).workers == x.workers && AfterAct(x).now == x.now;
      SameGrabKeepsPrompt(x, AfterAct(x));
  }

  lemma SameGrabKeepsPrompt(x: System, y: System)
    requires PromptWorker(x) && x.grab == y.grab && x.workers == y.workers
    ensures PromptWorker(y)
  {
    if x.grab.pending {
      var w :| w in x.workers && IsPrompt(x, w);
      assert IsPrompt(y, w);
    }
  }

  lemma CallKeepsPrompt(p: Platform, x: System, req: Request, s: Session)
    requires NoneOverdue(x) && PromptWorker(x) && Coupled(x.grab, x.now)
    ensures NoneOverdue(AfterCall(p, x, req, s)) && PromptWorker(AfterCall(p, x, req, s))
  {
    var y := AfterCall(p, x, req, s);
    var (g, o) := Change(p, x.grab, req, s, x.now);
    if g.pending {
      if x.grab.pending {
        var w :| w in x.workers && IsPrompt(x, w);
        assert w in y.workers && IsPrompt(y, w);
      } else {
        var w := Worker(s, x.now + o.spawn.value);
        assert w in y.workers && IsPrompt(y, w);
      }
    }
  }

  lemma WakeKeepsPrompt(p: Platform, x: System, w: Worker)
    requires NoneOverdue(x) && PromptWorker(x) && Coupled(x.grab, x.now) && Enabled(x, Wake(w))
    ensures NoneOverdue(AfterWake(p, x, w)) && PromptWorker(AfterWake(p, x, w))
  {
    var y := AfterWake(p, x, w);
    var (g, a) := WorkerWakes(x.grab, w.session, x.now);
    match a
    case Retry(delay) =>
      var v := Worker(w.session, x.now + delay);
      assert v in y.workers && IsPrompt(y, v);
    case Release =>
    case Stop =>
      if x.grab.pending {
        var v :| v in x.workers && IsPrompt(x, v);
        assert v in y.workers && IsPrompt(y, v);
      }
  }

  /** Without handoff or release, a pending release stays pending and the owner stays. */
  lemma PendingStays(p: Platform, g: Grab, l: Label, now: int, s: Session)
    requires Coupled(g, now) && g.pending && g.owner == Some(s)
    requires !IsHandoff(l, s) && GrabAfter(p, g, l, now).owner.Some?
    ensures GrabAfter(p, g, l, now).pending && GrabAfter(p, g, l, now).owner == Some(s)
  {
  }

  lemma {:induction false} PendingUntilRelease(p: Platform, states: seq<System>, labels: seq<Label>, i: nat, j: nat, s: Session)
    requires IsRun(p, states, labels) && i <= j < |states|
    requires states[i].grab.pending && states[i].grab.owner == Some(s)
    requires forall k :: i <= k < j ==> !IsHandoff(labels[k], s) && !ReleasesAt(states, labels, k, s)
    ensures states[j].grab.pending && states[j].grab.owner == Some(s)
  {
    if i < j {
      PendingUntilRelease(p, states, labels, i, j - 1, s);
      InvAlongRun(p, INITIAL, states, labels, j - 1);
      assert StepAt(p, states, labels, j - 1) && !ReleasesAt(states, labels, j - 1, s);
      StepGrab(p, states[j - 1], labels[j - 1]);
      PendingStays(p, states[j - 1].grab, labels[j - 1], states[j - 1].now, s);
    }
  }

  lemma PendingIsRecent(p: Platform, states: seq<System>, labels: seq<Label>, j: nat, s: Session)
    requires IsOnTimeRun(p, states, labels) && j < |states|
    requires states[j].grab.pending && states[j].grab.owner == Some(s)
    ensures exists m, t :: m < j && RunAt(states, labels, m, s, t) && states[j].now <= t + WORST_CASE_MS
  {
    OnTimeInv(p, states, labels, j);
    var m := LastGrabIsARun(p, states, labels, j, s);
    assert RunAt(states, labels, m, s, states[j].grab.lastGrab.value);
  }

  /**
   After a debounced Wait (state `i` is pending), with on-time wakeups and no handoff, the grab has been
   released by the time 350 ms have passed since the owner's last Run, however many Runs came in between.
   */
  lemma DebouncedWaitIsHonoured(p: Platform, states: seq<System>, labels: seq<Label>, i: nat, j: nat, s: Session)
    requires IsOnTimeRun(p, states, labels) && i <= j < |states|
    requires states[i].grab.pending && states[i].grab.owner == Some(s)
    requires forall k :: i <= k < j ==> !IsHandoff(labels[k], s)
    requires forall m, t :: m < j && RunAt(states, labels, m, s, t) ==> states[j].now > t + WORST_CASE_MS
    ensures exists k :: i <= k < j && ReleasesAt(states, labels, k, s)
  {
    if forall k :: i <= k < j ==> !ReleasesAt(states, labels, k, s) {
      PendingUntilRelease(p, states, labels, i, j, s);
      PendingIsRecent(p, states, labels, j, s);
    }
  }

  // ---------- runs go on to a release ----------

  ghost predicate WorkerAlive(x: System, s: Session) {
    exists w :: w in x.workers && w.session == s
  }

  /** Nothing but time and workers, and every worker wakes on time. */
  ghost predicate IsQuietRunFrom(p: Platform, x: System, states: seq<System>, labels: seq<Label>) {
    && IsRunFrom(p, x, states, labels)
    && forall i :: 0 <= i < |labels| ==> OnTimeAt(states, labels, i) && !labels[i].Call?
  }

  ghost predicate EndsInRelease(states: seq<System>, labels: seq<Label>, s: Session) {
    |states| == |labels| + 1 && ReleasesAt(states, labels, |labels| - 1, s)
  }

  lemma Prepend(p: Platform, x: System, l: Label, states: seq<System>, labels: seq<Label>, s: Session)
    requires Enabled(x, l) && OnTime(x, l) && !l.Call?
    requires IsQuietRunFrom(p, Next(p, x, l), states, labels)
    ensures IsQuietRunFrom(p, x, [x] + states, [l] + labels)
    ensures EndsInRelease(states, labels, s) ==> EndsInRelease([x] + states, [l] + labels, s)
  {
    hide Enabled, Next, OnTime;
    var xs, ls := [x] + states, [l] + labels;
    forall i | 0 <= i < |ls| ensures StepAt(p, xs, ls, i) && OnTimeAt(xs, ls, i) && !ls[i].Call? {
      if i > 0 {
        assert StepAt(p, states, labels, i - 1) && OnTimeAt(states, labels, i - 1);
      }
    }
  }

  lemma {:induction false} Earliest(ws: multiset<Worker>) returns (v: Worker)
    requires ws != multiset{}
    ensures v in ws && forall w :: w in ws ==> v.deadline <= w.deadline
    decreases |ws|
  {
    var u :| u in ws;
    var rest := ws - multiset{u};
    v := u;
    if rest != multiset{} {
      var t := Earliest(rest);
      if t.deadline < u.deadline {
        v := t;
      }
    }
    forall w | w in ws ensures v.deadline <= w.deadline {
      if w != u {
        assert w in rest;
      }
    }
  }

  /** Time goes on to the earliest deadline, and that worker wakes. */
  function AtDeadline(x: System, v: Worker): System
    requires x.now <= v.deadline
  {
    x.(now := v.deadline)
  }

  lemma OneWaking(p: Platform, x: System, v: Worker, states: seq<System>, labels: seq<Label>, s: Session)
    requires v in x.workers && x.now <= v.deadline && forall w :: w in x.workers ==> v.deadline <= w.deadline
    requires IsQuietRunFrom(p, AfterWake(p, AtDeadline(x, v), v), states, labels)
    ensures var y := AtDeadline(x, v);
            && IsQuietRunFrom(p, x, [x] + ([y] + states), [Tick(v.deadline - x.now)] + ([Wake(v)] + labels))
            && (EndsInRelease(states, labels, s) ==>
                  EndsInRelease([x] + ([y] + states), [Tick(v.deadline - x.now)] + ([Wake(v)] + labels), s))
  {
    var y := AtDeadline(x, v);
    var t := Tick(v.deadline - x.now);
    assert Next(p, x, t) == y && OnTime(x, t);
    assert Next(p, y, Wake(v)) == AfterWake(p, y, v) && Enabled(y, Wake(v)) && OnTime(y, Wake(v));
    hide AfterWake, IsQuietRunFrom;
    Prepend(p, y, Wake(v), states, labels, s);
    Prepend(p, x, t, [y] + states, [Wake(v)] + labels, s);
  }

  lemma ReleasingWake(p: Platform, x: System, v: Worker, s: Session) returns (states: seq<System>, labels: seq<Label>)
    requires v in x.workers && x.now <= v.deadline && forall w :: w in x.workers ==> v.deadline <= w.deadline
    requires x.grab.owner == Some(s) && AfterWake(p, AtDeadline(x, v), v).grab.owner.None?
    ensures IsQuietRunFrom(p, x, states, labels) && EndsInRelease(states, labels, s)
  {
    var y := AtDeadline(x, v);
    var z := AfterWake(p, y, v);
    OneWaking(p, x, v, [z], [], s);
    states, labels := [x] + ([y] + [z]), [Tick(v.deadline - x.now)] + ([Wake(v)] + []);
    assert |labels| == 2 && states[1] == y && states[2] == z;
  }

  /** Workers that will release when they wake, if they are the owner's. */
  ghost predicate AllLate(late: multiset<Worker>, g: Grab) {
    g.lastGrab.Some? && forall w :: w in late ==> w.deadline >= g.lastGrab.value + GRAB_DEBOUNCE_MS
  }

  /**
   From any state with a worker of the owner and none overdue, time and workers alone lead to a release. Each waking
   either releases, or ends a worker, or moves it from `early` to `late`.
   */
  lemma {:induction false} RunToRelease(p: Platform, x: System, s: Session, early: multiset<Worker>, late: multiset<Worker>)
    returns (states: seq<System>, labels: seq<Label>)
    requires Coupled(x.grab, x.now) && x.grab.owner == Some(s) && NoneOverdue(x) && WorkerAlive(x, s)
    requires x.workers == early + late && AllLate(late, x.grab)
    ensures IsQuietRunFrom(p, x, states, labels) && EndsInRelease(states, labels, s)
    decreases 2 * |early| + |late|
  {
    hide IsQuietRunFrom, EndsInRelease;
    var v := Earliest(x.workers);
    var y := AtDeadline(x, v);
    var z := AfterWake(p, y, v);
    if z.grab.owner.None? {
      states, labels := ReleasingWake(p, x, v, s);
    } else {
      var early', late' := WakingProgress(p, x, v, s, early, late);
      states, labels := RunToRelease(p, z, s, early', late');
      OneWaking(p, x, v, states, labels, s);
      states, labels := [x] + ([y] + states), [Tick(v.deadline - x.now)] + ([Wake(v)] + labels);
    }
  }

  lemma WakingProgress(p: Platform, x: System, v: Worker, s: Session, early: multiset<Worker>, late: multiset<Worker>)
    returns (early': multiset<Worker>, late': multiset<Worker>)
    requires Coupled(x.grab, x.now) && x.grab.owner == Some(s) && NoneOverdue(x) && WorkerAlive(x, s)
    requires x.workers == early + late && AllLate(late, x.grab)
    requires v in x.workers && forall w :: w in x.workers ==> v.deadline <= w.deadline
    requires AfterWake(p, AtDeadline(x, v), v).grab.owner.Some?
    ensures var z := AfterWake(p, AtDeadline(x, v), v);
            && Coupled(z.grab, z.now) && z.grab.owner == Some(s) && NoneOverdue(z) && WorkerAlive(z, s)
            && z.workers == early' + late' && AllLate(late', z.grab)
    ensures 2 * |early'| + |late'| < 2 * |early| + |late|
  {
    WakingKeeps(p, x, v, s);
    var a := WorkerWakes(x.grab, v.session, v.deadline).1;
    hide NoneOverdue, WorkerAlive, Coupled, AfterWake, WorkerWakes, AtDeadline;
    if a.Retry? {
      NotLate(late, x.grab, v);
      hide AllLate;
      early', late' := MoveWorker(x.workers, early, late, v, Worker(s, v.deadline + a.delay));
      MoreLate(late, late', x.grab, Worker(s, v.deadline + a.delay));
    } else {
      hide AllLate;
      early', late' := DropWorker(x.workers, early, late, v);
      LessLate(late, late', x.grab);
    }
  }

  lemma NotLate(late: multiset<Worker>, g: Grab, v: Worker)
    requires AllLate(late, g) && v.deadline < g.lastGrab.value + GRAB_DEBOUNCE_MS
    ensures v !in late
  {
  }

  lemma MoreLate(late: multiset<Worker>, late': multiset<Worker>, g: Grab, next: Worker)
    requires AllLate(late, g) && next.deadline >= g.lastGrab.value + GRAB_DEBOUNCE_MS
    requires forall w :: w in late' ==> w in late || w == next
    ensures AllLate(late', g)
  {
  }

  lemma LessLate(late: multiset<Worker>, late': multiset<Worker>, g: Grab)
    requires AllLate(late, g) && forall w :: w in late' ==> w in late
    ensures AllLate(late', g)
  {
  }

  lemma MoveWorker(ws: multiset<Worker>, early: multiset<Worker>, late: multiset<Worker>, v: Worker, next: Worker)
    returns (early': multiset<Worker>, late': multiset<Worker>)
    requires ws == early + late && v in early
    ensures ws - multiset{v} + multiset{next} == early' + late' && forall w :: w in late' ==> w in late || w == next
    ensures 2 * |early'| + |late'| < 2 * |early| + |late|
  {
    early', late' := early - multiset{v}, late + multiset{next};
    assert |early'| == |early| - 1;
  }

  lemma DropWorker(ws: multiset<Worker>, early: multiset<Worker>, late: multiset<Worker>, v: Worker)
    returns (early': multiset<Worker>, late': multiset<Worker>)
    requires ws == early + late && v in ws
    ensures ws - multiset{v} == early' + late' && forall w :: w in late' ==> w in late
    ensures 2 * |early'| + |late'| < 2 * |early| + |late|
  {
    if v in early {
      early', late' := early - multiset{v}, late;
      assert |early'| == |early| - 1;
    } else {
      early', late' := early, late - multiset{v};
      assert |late'| == |late| - 1;
    }
  }

  /** A waking that does not release leaves the owner's record, and a worker for it. */
  lemma WakingKeeps(p: Platform, x: System, v: Worker, s: Session)
    requires Coupled(x.grab, x.now) && x.grab.owner == Some(s) && NoneOverdue(x) && WorkerAlive(x, s)
    requires v in x.workers && forall w :: w in x.workers ==> v.deadline <= w.deadline
    requires AfterWake(p, AtDeadline(x, v), v).grab.owner.Some?
    ensures var z, a := AfterWake(p, AtDeadline(x, v), v), WorkerWakes(x.grab, v.session, v.deadline).1;
            && z.grab == x.grab && Coupled(z.grab, z.now) && NoneOverdue(z) && WorkerAlive(z, s)
            && (a.Retry? ==> v.session == s && v.deadline < x.grab.lastGrab.value + GRAB_DEBOUNCE_MS
                             && v.deadline + a.delay >= x.grab.lastGrab.value + GRAB_DEBOUNCE_MS
                             && z.workers == x.workers - multiset{v} + multiset{Worker(s, v.deadline + a.delay)})
            && (!a.Retry? ==> z.workers == x.workers - multiset{v})
  {
    var y := AtDeadline(x, v);
    var z := AfterWake(p, y, v);
    var (g, a) := WorkerWakes(y.grab, v.session, y.now);
    if a.Retry? {
      assert Worker(s, y.now + a.delay) in z.workers;
    } else {
      assert z.workers == x.workers - multiset{v};
      var u :| u in x.workers && u.session == s;
      assert u in z.workers;
    }
  }

  /** In every on-time run, a pending release can go on to be made, on time and without any further call. */
  lemma PendingReleaseComes(p: Platform, states: seq<System>, labels: seq<Label>, i: nat, s: Session)
    requires IsOnTimeRun(p, states, labels) && i < |states|
    requires states[i].grab.pending && states[i].grab.owner == Some(s)
    ensures exists more, steps :: IsQuietRunFrom(p, states[i], more, steps) && EndsInRelease(more, steps, s)
  {
    hide IsQuietRunFrom, EndsInRelease;
    OnTimeInv(p, states, labels, i);
    InvAlongRun(p, INITIAL, states, labels, i);
    var x := states[i];
    assert WorkerAlive(x, s);
    assert x.workers == x.workers + multiset{};
    var more, steps := RunToRelease(p, x, s, x.workers, multiset{});
  }

  // ---------- which tenures end without a Wait ----------

  /** Some run from here releases `s` without a Wait of `s`. */
  ghost predicate ReleasableUnasked(p: Platform, x: System, s: Session) {
    exists states, labels :: IsRunFrom(p, x, states, labels) && Call(Wait, s) !in labels && EndsInRelease(states, labels, s)
  }

  /** Only a Wait of `s` makes a worker of `s`. */
  lemma NoWorkerComes(p: Platform, x: System, l: Label, s: Session)
    requires Enabled(x, l) && l != Call(Wait, s) && !WorkerAlive(x, s)
    ensures !WorkerAlive(Next(p, x, l), s)
  {
    var y := Next(p, x, l);
    match l
    case Call(req, q) => assert y.workers == x.workers + Spawned(Change(p, x.grab, req, q, x.now).1, q, x.now);
    case Wake(w) =>
    case Tick(_) =>
    case CheckOp(_) => assert y.workers == x.workers;
    case Act => assert y.workers == x.workers;
  }

  lemma {:induction false} NoWorkerSince(p: Platform, x: System, states: seq<System>, labels: seq<Label>,
                                         k: nat, m: nat, s: Session)
    requires IsRunFrom(p, x, states, labels) && k <= m < |states| && !WorkerAlive(states[k], s)
    requires forall i :: k <= i < m ==> labels[i] != Call(Wait, s)
    ensures !WorkerAlive(states[m], s)
  {
    hide Enabled, Next, WorkerAlive;
    if k < m {
      NoWorkerSince(p, x, states, labels, k, m - 1, s);
      assert StepAt(p, states, labels, m - 1);
      NoWorkerComes(p, states[m - 1], labels[m - 1], s);
    }
  }

  /** A release with no Wait of the owner since step `k` is the work of a worker that was alive at `k`. */
  lemma UnaskedReleaseNeedsWorker(p: Platform, x: System, states: seq<System>, labels: seq<Label>,
                                  k: nat, m: nat, s: Session)
    requires IsRunFrom(p, x, states, labels) && k <= m && ReleasesAt(states, labels, m, s)
    requires forall i :: k <= i <= m ==> labels[i] != Call(Wait, s)
    ensures WorkerAlive(states[k], s)
  {
    assert StepAt(p, states, labels, m);
    ReleaseIsByWorker(p, states[m], labels[m], s);
    if !WorkerAlive(states[k], s) {
      NoWorkerSince(p, x, states, labels, k, m, s);
    }
  }

  lemma ReleaseIsByWorker(p: Platform, x: System, l: Label, s: Session)
    requires Enabled(x, l) && l != Call(Wait, s)
    requires x.grab.owner == Some(s) && Next(p, x, l).grab.owner.None?
    ensures WorkerAlive(x, s)
  {
    StepGrab(p, x, l);
    match l
    case Wake(w) => assert w in x.workers && w.session == s;
    case _ =>
  }

  /** A live worker of the owner releases once the quiet period and its own sleep are over. */
  lemma WorkerCanRelease(p: Platform, x: System, w: Worker, s: Session)
    requires Coupled(x.grab, x.now) && x.grab.owner == Some(s) && w in x.workers && w.session == s
    ensures ReleasableUnasked(p, x, s)
  {
    var ms := Max(GRAB_DEBOUNCE_MS, w.deadline - x.now);
    var y := x.(now := x.now + ms);
    var z := AfterWake(p, y, w);
    var states, labels := [x, y, z], [Tick(ms), Wake(w)];
    assert StepAt(p, states, labels, 0) && StepAt(p, states, labels, 1);
    assert z.grab == FREE;
    assert EndsInRelease(states, labels, s);
  }

  /** So a tenure can end without a Wait of its session exactly if a worker of the session is alive. */
  lemma ReleasableUnaskedIffWorker(p: Platform, states: seq<System>, labels: seq<Label>, k: nat, s: Session)
    requires IsRun(p, states, labels) && k < |states| && states[k].grab.owner == Some(s)
    ensures ReleasableUnasked(p, states[k], s) <==> WorkerAlive(states[k], s)
  {
    InvAlongRun(p, INITIAL, states, labels, k);
    var x := states[k];
    if WorkerAlive(x, s) {
      var w :| w in x.workers && w.session == s;
      WorkerCanRelease(p, x, w, s);
    }
    if ReleasableUnasked(p, x, s) {
      var more, steps :| IsRunFrom(p, x, more, steps) && Call(Wait, s) !in steps && EndsInRelease(more, steps, s);
      UnaskedReleaseNeedsWorker(p, x, more, steps, 0, |steps| - 1, s);
    }
  }

  // ---------- a tenure that ends so ----------

  function StaleLabels(s: Session, t: Session): seq<Label> {
    [Call(Run, s), Call(Wait, s), Call(Run, t), Call(Run, s), Tick(350), Wake(Worker(s, 350))]
  }

  function StaleStates(s: Session, t: Session): seq<System> {
    var owned := Grab(Some(s), Some(0), false, true);
    var w := multiset{Worker(s, 350)};
    [ INITIAL,
      System(0, owned, multiset{}, multiset{}, Idle, false),
      System(0, owned.(pending := true), w, multiset{}, Idle, false),
      System(0, owned.(owner := Some(t)), w, multiset{}, Idle, false),
      System(0, owned, w, multiset{}, Idle, false),
      System(350, owned, w, multiset{}, Idle, false),
      System(350, FREE, multiset{}, multiset{}, Idle, false) ]
  }

  lemma StaleCalls(s: Session, t: Session, i: nat)
    requires s != t && i < 4
    ensures var x := StaleStates(s, t)[i];
            var l := StaleLabels(s, t)[i];
            StaleStates(s, t)[i + 1] == AfterCall(MacOS, x, l.req, l.session)
  {
    var x, l := StaleStates(s, t)[i], StaleLabels(s, t)[i];
    var (g, o) := Change(MacOS, x.grab, l.req, l.session, 0);
    assert g == StaleStates(s, t)[i + 1].grab;
    assert x.workers + Spawned(o, l.session, 0) == StaleStates(s, t)[i + 1].workers;
  }

  /** A stale worker: a tenure in which no Wait was ever made is released by the worker of an earlier one. */
  lemma StaleWorkerReleasesNewTenure(s: Session, t: Session)
    requires s != t
    ensures var states, labels := StaleStates(s, t), StaleLabels(s, t);
            && IsRun(MacOS, states, labels)
            && ReleasesAt(states, labels, 5, s)
            && labels[3] == Call(Run, s) && states[3].grab.owner == Some(t) // the tenure starts here ...
            && Call(Wait, s) !in labels[3..]                                // ... and sees no Wait
  {
    var states, labels := StaleStates(s, t), StaleLabels(s, t);
    forall i | 0 <= i < |labels|
      ensures StepAt(MacOS, states, labels, i)
    {
      if i < 4 {
        StaleCalls(s, t, i);
      } else if i == 5 {
        assert states[5].workers - multiset{Worker(s, 350)} == multiset{};
      }
    }
  }
}
