/**
 Keyboard grab ownership (src/keyboard.rs, module `client`).

 Session windows call `change_grab_status` from their own threads.  Each call is one
 critical section on the owner record; deferred-release workers re-enter the same
 section after sleeping; on Linux the grab itself is applied later, under a second lock.
 `GrabOwner` is the record with its critical sections, `System` the whole process with
 sleeping workers, queued grab operations and the one operation in flight.
 */
module GrabOwnership {
  import opened Prelude

  type Session = nat

  datatype Platform = Linux | MacOS | Windows

  datatype Request = Ready | Run | Wait | Exit

  const GRAB_DEBOUNCE_MS: int := 300
  const RETRY_SLACK_MS: int := 50

  /** Owner record; `lastGrab` is a time in milliseconds, `hooked` the atomic KEYBOARD_HOOKED. */
  datatype Grab = Grab(owner: Option<Session>, lastGrab: Option<int>, pending: bool, hooked: bool)

  const FREE := Grab(None, None, false, false)

  datatype Outcome =
    | Nothing                      // Ready and Exit, or a Wait from a session that is not the owner
    | Refreshed                    // Run from the owner: only the debounce time moves
    | Acquired(hadOwner: bool)
    | Debounced(spawn: Option<int>) // the delay of a newly spawned worker, if one is needed
    | Released

  datatype WorkerAction = Stop | Retry(delay: int) | Release

  predicate Debounces(p: Platform) {
    p != Windows
  }

  /** What one `change_grab_status` call does to the owner record. */
  function Change(p: Platform, g: Grab, req: Request, s: Session, now: int): (Grab, Outcome) {
    match req
    case Ready => (g, Nothing)
    case Exit => (g, Nothing)
    case Run =>
      if g.owner == Some(s) then (g.(lastGrab := Some(now)), Refreshed)
      else (Grab(Some(s), Some(now), false, true), Acquired(g.owner.Some?))
    case Wait =>
      if g.owner != Some(s) then (g, Nothing)
      else if Debounces(p) && g.lastGrab.Some? && now - g.lastGrab.value < GRAB_DEBOUNCE_MS then
        if g.pending then (g, Debounced(None))
        else (g.(pending := true), Debounced(Some(Remaining(g.lastGrab.value, now))))
      else (FREE, Released)
  }

  /** What a deferred-release worker of session `s` does when it wakes. */
  function WorkerWakes(g: Grab, s: Session, now: int): (Grab, WorkerAction) {
    if g.owner != Some(s) then (g, Stop)
    else if g.lastGrab.None? then (g.(pending := false), Stop)
    else if now - g.lastGrab.value < GRAB_DEBOUNCE_MS then (g, Retry(Remaining(g.lastGrab.value, now)))
    else (FREE, Release)
  }

  function Remaining(lastGrab: int, now: int): int {
    GRAB_DEBOUNCE_MS - (now - lastGrab) + RETRY_SLACK_MS
  }

  /** The mutex-guarded record, updated in place as the two critical sections do. */
  class GrabOwner {
    var owner: Option<Session>
    var lastGrab: Option<int>
    var pending: bool
    var hooked: bool

    constructor ()
      ensures State() == FREE
    {
      owner, lastGrab, pending, hooked := None, None, false, false;
    }

    function State(): Grab
      reads this
    {
      Grab(owner, lastGrab, pending, hooked)
    }

    method ChangeGrabStatus(p: Platform, req: Request, s: Session, now: int) returns (o: Outcome)
      modifies this
      ensures (State(), o) == Change(p, old(State()), req, s, now)
    {
      match req
      case Ready => return Nothing;
      case Exit => return Nothing;
      case Run =>
        if owner == Some(s) {
          lastGrab := Some(now);
          return Refreshed;
        }
        hooked := true;
        var hadOwner := owner.Some?;
        owner := Some(s);
        lastGrab := Some(now);
        pending := false;
        return Acquired(hadOwner);
      case Wait =>
        if owner != Some(s) {
          return Nothing;
        }
        if p != Windows && lastGrab.Some? {
          var elapsed := now - lastGrab.value;
          if elapsed < GRAB_DEBOUNCE_MS {
            if pending {
              return Debounced(None);
            }
            pending := true;
            return Debounced(Some(GRAB_DEBOUNCE_MS - elapsed + RETRY_SLACK_MS));
          }
        }
        hooked := false;
        owner, lastGrab, pending := None, None, false;
        return Released;
    }

    method WorkerTurn(s: Session, now: int) returns (a: WorkerAction)
      modifies this
      ensures (State(), a) == WorkerWakes(old(State()), s, now)
    {
      if owner != Some(s) {
        return Stop;
      }
      match lastGrab
      case None =>
        pending := false;
        return Stop;
      case Some(t) =>
        var elapsed := now - t;
        if elapsed < GRAB_DEBOUNCE_MS {
          return Retry(GRAB_DEBOUNCE_MS - elapsed + RETRY_SLACK_MS);
        }
        pending := false;
        owner, lastGrab := None, None;
        hooked := false;
        return Release;
    }
  }

  // ---------- the whole process ----------

  datatype Worker = Worker(session: Session, deadline: int)

  /** A grab operation whose thread has left the owner's critical section and waits for GRAB_OP_LOCK. */
  datatype Op = ApplyRun(session: Session, disableFirst: bool) | DisableIfReleased

  /** The operation holding GRAB_OP_LOCK after its check passed and before its effect is complete. */
  datatype Flight = Idle | Enabling(disableFirst: bool) | Disabling

  datatype System = System(
    now: int,
    grab: Grab,
    workers: multiset<Worker>,
    ops: multiset<Op>,
    flight: Flight,
    osGrabbed: bool)

  datatype Label =
    | Tick(ms: nat)
    | Call(req: Request, session: Session)
    | Wake(worker: Worker)
    | CheckOp(op: Op)
    | Act

  const INITIAL := System(0, FREE, multiset{}, multiset{}, Idle, false)

  predicate Enabled(x: System, l: Label) {
    match l
    case Tick(_) => true
    case Call(_, _) => true
    case Wake(w) => w in x.workers && w.deadline <= x.now
    case CheckOp(op) => x.flight == Idle && op in x.ops
    case Act => x.flight != Idle
  }

  /** The operation an outcome leaves behind for Linux. */
  function QueuedOp(p: Platform, o: Outcome, s: Session): multiset<Op> {
    if p != Linux then multiset{}
    else match o
      case Acquired(hadOwner) => multiset{ApplyRun(s, hadOwner)}
      case Released => multiset{DisableIfReleased}
      case _ => multiset{}
  }

  predicate CheckPasses(g: Grab, op: Op) {
    match op
    case ApplyRun(s, _) => g.owner == Some(s)
    case DisableIfReleased => g.owner.None? && g.lastGrab.None?
  }

  function FlightOf(op: Op): Flight {
    match op
    case ApplyRun(_, disableFirst) => Enabling(disableFirst)
    case DisableIfReleased => Disabling
  }

  function Next(p: Platform, x: System, l: Label): System
    requires Enabled(x, l)
  {
    match l
    case Tick(ms) => x.(now := x.now + ms)
    case Call(req, s) => AfterCall(p, x, req, s)
    case Wake(w) => AfterWake(p, x, w)
    case CheckOp(op) => AfterCheck(x, op)
    case Act => AfterAct(x)
  }

  /** One `change_grab_status` call: critical section, spawned worker, operation left for later. */
  function AfterCall(p: Platform, x: System, req: Request, s: Session): System {
    var (g, o) := Change(p, x.grab, req, s, x.now);
    x.(grab := g, ops := x.ops + QueuedOp(p, o, s), workers := x.workers + Spawned(o, s, x.now))
  }

  function Spawned(o: Outcome, s: Session, now: int): multiset<Worker> {
    if o.Debounced? && o.spawn.Some? then multiset{Worker(s, now + o.spawn.value)} else multiset{}
  }

  /** One turn of a deferred-release worker; it goes back to sleep only on Retry. */
  function AfterWake(p: Platform, x: System, w: Worker): System {
    var (g, a) := WorkerWakes(x.grab, w.session, x.now);
    x.(grab := g,
       ops := x.ops + QueuedOp(p, if a == Release then Released else Nothing, w.session),
       workers := x.workers - multiset{w}
                  + (if a.Retry? then multiset{Worker(w.session, x.now + a.delay)} else multiset{}))
  }

  function AfterCheck(x: System, op: Op): System {
    x.(ops := x.ops - multiset{op}, flight := if CheckPasses(x.grab, op) then FlightOf(op) else Idle)
  }

  function AfterAct(x: System): System {
    match x.flight
    case Enabling(disableFirst) =>
      if disableFirst then x.(osGrabbed := false, flight := Enabling(false))
      else x.(osGrabbed := true, flight := Idle)
    case _ => x.(osGrabbed := false, flight := Idle)
  }

  /** `states` is what the process goes through when the steps `labels` happen from `x`. */
  ghost predicate IsRunFrom(p: Platform, x: System, states: seq<System>, labels: seq<Label>) {
    && |states| == |labels| + 1
    && states[0] == x
    && forall i :: 0 <= i < |labels| ==> StepAt(p, states, labels, i)
  }

  ghost predicate StepAt(p: Platform, states: seq<System>, labels: seq<Label>, i: nat)
    requires |states| == |labels| + 1 && i < |labels|
  {
    Enabled(states[i], labels[i]) && states[i + 1] == Next(p, states[i], labels[i])
  }

  ghost predicate IsRun(p: Platform, states: seq<System>, labels: seq<Label>) {
    IsRunFrom(p, INITIAL, states, labels)
  }

  // ---------- what every step keeps ----------

  /** Owner, timestamp and hooked flag come and go together. */
  predicate Coupled(g: Grab, now: int) {
    && (g.owner.Some? <==> g.lastGrab.Some?)
    && (g.owner.Some? <==> g.hooked)
    && (g.lastGrab.Some? ==> g.lastGrab.value <= now)
  }

  /** A pending deferred release has a live worker of the current owner behind it. */
  ghost predicate WorkerBehindPending(x: System) {
    x.grab.pending ==>
      x.grab.owner.Some? && exists w :: w in x.workers && w.session == x.grab.owner.value
  }

  /** The OS grab once the operation in flight has finished. */
  function Settled(x: System): bool {
    match x.flight
    case Idle => x.osGrabbed
    case Enabling(_) => true
    case Disabling => false
  }

  /** Any disagreement between owner and OS is covered by a queued operation that repairs it. */
  ghost predicate Covered(x: System) {
    match x.grab.owner
    case Some(s) => Settled(x) || exists first :: ApplyRun(s, first) in x.ops
    case None => !Settled(x) || DisableIfReleased in x.ops
  }

  ghost predicate Inv(p: Platform, x: System) {
    && Coupled(x.grab, x.now)
    && WorkerBehindPending(x)
    && (p == Linux ==> Covered(x))
  }

  lemma StepKeepsInv(p: Platform, x: System, l: Label)
    requires Inv(p, x) && Enabled(x, l)
    ensures Inv(p, Next(p, x, l))
  {
    StepKeepsCoupled(p, x, l);
    StepKeepsWorker(p, x, l);
    if p == Linux {
      StepKeepsCovered(x, l);
    }
  }

  /** The owner record after a step: only the two critical sections touch it. */
  function GrabAfter(p: Platform, g: Grab, l: Label, now: int): Grab {
    match l
    case Call(req, s) => Change(p, g, req, s, now).0
    case Wake(w) => WorkerWakes(g, w.session, now).0
    case _ => g
  }

  lemma StepGrab(p: Platform, x: System, l: Label)
    requires Enabled(x, l)
    ensures Next(p, x, l).grab == GrabAfter(p, x.grab, l, x.now)
    ensures Next(p, x, l).now == if l.Tick? then x.now + l.ms else x.now
  {
    if l.Act? {
      assert AfterAct(x).grab == x.grab && AfterAct(x).now == x.now;
    }
  }

  lemma StepKeepsCoupled(p: Platform, x: System, l: Label)
    requires Coupled(x.grab, x.now) && Enabled(x, l)
    ensures Coupled(Next(p, x, l).grab, Next(p, x, l).now)
  {
    StepGrab(p, x, l);
    match l
    case Call(req, s) => ChangeKeepsCoupled(p, x.grab, req, s, x.now);
    case Wake(w) => WorkerKeepsCoupled(x.grab, w.session, x.now);
    case _ =>
  }

  lemma ChangeKeepsCoupled(p: Platform, g: Grab, req: Request, s: Session, now: int)
    requires Coupled(g, now)
    ensures Coupled(Change(p, g, req, s, now).0, now)
  {
  }

  lemma WorkerKeepsCoupled(g: Grab, s: Session, now: int)
    requires Coupled(g, now)
    ensures Coupled(WorkerWakes(g, s, now).0, now)
  {
  }

  lemma StepKeepsWorker(p: Platform, x: System, l: Label)
    requires Coupled(x.grab, x.now) && WorkerBehindPending(x) && Enabled(x, l)
    ensures WorkerBehindPending(Next(p, x, l))
  {
    match l
    case Call(req, s) => CallKeepsWorker(p, x, req, s);
    case Wake(w) => WakeKeepsWorker(p, x, w);
    case Tick(_) => assert Next(p, x, l).workers == x.workers;
    case CheckOp(_) => assert Next(p, x, l).workers == x.workers;
    case Act => assert Next(p, x, l).workers == x.workers;
  }

  lemma CallKeepsWorker(p: Platform, x: System, req: Request, s: Session)
    requires Coupled(x.grab, x.now) && WorkerBehindPending(x)
    ensures WorkerBehindPending(AfterCall(p, x, req, s))
  {
    var y := AfterCall(p, x, req, s);
    var (g, o) := Change(p, x.grab, req, s, x.now);
    if o.Debounced? && o.spawn.Some? {
      assert Worker(s, x.now + o.spawn.value) in y.workers;
    } else {
      assert y.workers == x.workers;
    }
  }

  lemma WakeKeepsWorker(p: Platform, x: System, w: Worker)
    requires Coupled(x.grab, x.now) && WorkerBehindPending(x) && Enabled(x, Wake(w))
    ensures WorkerBehindPending(AfterWake(p, x, w))
  {
    var (g, a) := WorkerWakes(x.grab, w.session, x.now);
    var rest := x.workers - multiset{w};
    match a
    case Retry(delay) => assert Worker(w.session, x.now + delay) in AfterWake(p, x, w).workers;
    case Release =>
    case Stop =>
      assert AfterWake(p, x, w).workers == rest;
      if x.grab.pending {
        var v :| v in x.workers && v.session == x.grab.owner.value;
        assert v in rest;
      }
  }

  lemma StepKeepsCovered(x: System, l: Label)
    requires Coupled(x.grab, x.now) && Covered(x) && Enabled(x, l)
    ensures Covered(Next(Linux, x, l))
  {
    match l
    case Tick(_) =>
    case Call(req, s) => CallKeepsCovered(x, req, s);
    case Wake(w) => WakeKeepsCovered(x, w);
    case CheckOp(op) => CheckKeepsCovered(x, op);
    case Act => ActKeepsCovered(x);
  }

  lemma CallKeepsCovered(x: System, req: Request, s: Session)
    requires Covered(x)
    ensures Covered(AfterCall(Linux, x, req, s))
  {
    var (g, o) := Change(Linux, x.grab, req, s, x.now);
    QueueKeepsCovered(x, AfterCall(Linux, x, req, s), o, s);
  }

  lemma WakeKeepsCovered(x: System, w: Worker)
    requires Covered(x)
    ensures Covered(AfterWake(Linux, x, w))
  {
    var (g, a) := WorkerWakes(x.grab, w.session, x.now);
    QueueKeepsCovered(x, AfterWake(Linux, x, w), if a == Release then Released else Nothing, w.session);
  }

  lemma ActKeepsCovered(x: System)
    requires Covered(x) && x.flight != Idle
    ensures Covered(AfterAct(x))
  {
    assert Settled(AfterAct(x)) == Settled(x);
  }

  /** A critical section either leaves the owner alone or queues the operation its new owner needs. */
  lemma QueueKeepsCovered(x: System, y: System, o: Outcome, s: Session)
    requires Covered(x)
    requires y.flight == x.flight && y.osGrabbed == x.osGrabbed && y.ops == x.ops + QueuedOp(Linux, o, s)
    requires match o
             case Acquired(_) => y.grab.owner == Some(s)
             case Released => y.grab.owner.None?
             case _ => y.grab.owner == x.grab.owner
    ensures Covered(y)
  {
    match o
    case Acquired(hadOwner) => assert ApplyRun(s, hadOwner) in y.ops;
    case Released => assert DisableIfReleased in y.ops;
    case _ => assert y.ops == x.ops;
  }

  lemma CheckKeepsCovered(x: System, op: Op)
    requires Coupled(x.grab, x.now) && Covered(x) && Enabled(x, CheckOp(op))
    ensures Covered(Next(Linux, x, CheckOp(op)))
  {
    var y := Next(Linux, x, CheckOp(op));
    if !CheckPasses(x.grab, op) {
      match x.grab.owner
      case None => assert op.ApplyRun?; assert DisableIfReleased in x.ops ==> DisableIfReleased in y.ops;
      case Some(s) =>
        if !Settled(x) {
          var first :| ApplyRun(s, first) in x.ops;
          assert ApplyRun(s, first) != op;
          assert ApplyRun(s, first) in y.ops;
        }
    }
  }

  /** The invariant holds all along every run of any number of sessions, workers and operations. */
  lemma {:induction false} InvAlongRun(p: Platform, x: System, states: seq<System>, labels: seq<Label>, i: nat)
    requires Inv(p, x) && IsRunFrom(p, x, states, labels) && i < |states|
    ensures Inv(p, states[i])
  {
    if i > 0 {
      InvAlongRun(p, x, states, labels, i - 1);
      assert StepAt(p, states, labels, i - 1);
      StepKeepsInv(p, states[i - 1], labels[i - 1]);
    }
  }

  // ---------- main results ----------

  /** In every reachable state owner, timestamp and hooked flag agree, and a pending release has a worker. */
  lemma ReachableStatesCoupled(p: Platform, states: seq<System>, labels: seq<Label>, i: nat)
    requires IsRun(p, states, labels) && i < |states|
    ensures var g := states[i].grab;
            && (g.owner.Some? <==> g.lastGrab.Some?)
            && (g.owner.Some? <==> g.hooked)
            && (g.pending ==> g.owner.Some? && exists w :: w in states[i].workers && w.session == g.owner.value)
    // so a waking worker of the owner always finds a timestamp
    ensures forall w | w in states[i].workers && states[i].grab.owner == Some(w.session) ::
              WorkerWakes(states[i].grab, w.session, states[i].now).1 != Stop
  {
    InvAlongRun(p, INITIAL, states, labels, i);
  }

  ghost predicate Quiescent(x: System) {
    x.ops == multiset{} && x.flight == Idle
  }

  /** Linux: with no grab operation queued or in flight, the OS grab is on exactly when a session owns it. */
  lemma QuiescentMeansAgreement(states: seq<System>, labels: seq<Label>, i: nat)
    requires IsRun(Linux, states, labels) && i < |states| && Quiescent(states[i])
    ensures states[i].osGrabbed <==> states[i].grab.owner.Some?
  {
    InvAlongRun(Linux, INITIAL, states, labels, i);
  }

  predicate IsOsStep(l: Label) {
    l.CheckOp? || l.Act?
  }

  function OsWork(x: System): nat {
    3 * |x.ops| + match x.flight
                  case Idle => 0
                  case Enabling(disableFirst) => if disableFirst then 2 else 1
                  case Disabling => 1
  }

  lemma OsStepWorks(x: System, l: Label)
    requires IsOsStep(l) && Enabled(x, l)
    ensures OsWork(Next(Linux, x, l)) < OsWork(x)
    ensures Next(Linux, x, l).grab == x.grab
  {
    if l.CheckOp? {
      assert |x.ops - multiset{l.op}| == |x.ops| - 1;
    }
  }

  /**
   However the queued operations are scheduled once session calls and workers rest: the schedule
   ends within a bounded number of steps, and where it can go no further the OS follows the owner.
   */
  lemma {:induction false} EveryOsScheduleSettles(x: System, states: seq<System>, labels: seq<Label>)
    requires Inv(Linux, x) && IsRunFrom(Linux, x, states, labels)
    requires forall l :: l in labels ==> IsOsStep(l)
    ensures |labels| <= OsWork(x)
    ensures states[|labels|].grab == x.grab
    ensures (forall l :: IsOsStep(l) ==> !Enabled(states[|labels|], l))
              ==> (states[|labels|].osGrabbed <==> x.grab.owner.Some?)
  {
    OsScheduleWorks(x, states, labels, |labels|);
    var last := states[|labels|];
    InvAlongRun(Linux, x, states, labels, |labels|);
    if forall l :: IsOsStep(l) ==> !Enabled(last, l) {
      assert !Enabled(last, Act);
      assert forall op :: op in last.ops ==> Enabled(last, CheckOp(op));
      assert last.ops == multiset{};
    }
  }

  lemma {:induction false} OsScheduleWorks(x: System, states: seq<System>, labels: seq<Label>, i: nat)
    requires IsRunFrom(Linux, x, states, labels) && i <= |labels|
    requires forall l :: l in labels ==> IsOsStep(l)
    ensures OsWork(states[i]) + i <= OsWork(x)
    ensures states[i].grab == x.grab
  {
    if i > 0 {
      OsScheduleWorks(x, states, labels, i - 1);
      assert StepAt(Linux, states, labels, i - 1) && labels[i - 1] in labels;
      OsStepWorks(states[i - 1], labels[i - 1]);
    }
  }
}
