/**
 Concurrent remote updates against the quiet window (src/clipboard.rs:599-635, 1726-1787).

 Each update runs on its own thread. Its steps interleave with local changes, opaque sightings and other updates;
 the marks they share are the history of ClipboardTiming.
 */
module ClipboardUpdates {
  import opened Prelude
  import opened ClipboardItems
  import opened FormatNames
  import opened ClipboardTiming

  /** A delay answer: how many events had happened, and when it was asked. */
  datatype Look = Look(events: nat, at: int)

  datatype Phase =
    | Arrived
    | Checked
    | Sleeping(asked: Look, until: int)
    | Rechecked(asked: Look, until: int)
    | Admitted(quiet: Look)
    | Put(quiet: Look, put: Look)
    | Written(quiet: Look, put: Look)
    | Abandoned(quiet: Look)
    | Blocked
    | Superseded(asked: Look, until: int, answered: Look)

  datatype Update = Update(data: seq<Item>, policy: Policy, phase: Phase)

  datatype State = State(now: int, events: seq<Event>, updates: map<nat, Update>)

  datatype Label =
    | Wait(ms: nat)
    | ChangeLocally
    | See(clipboard: string)
    | Arrive(id: nat, data: seq<Item>, policy: Policy)
    | Check(id: nat, opaqueFound: Option<string>)
    | Ask(id: nat)
    | Wake(id: nat, opaqueFound: Option<string>)
    | AskAgain(id: nat)
    | PutData(id: nat, done: bool)
    | MarkApplied(id: nat)

  function Here(s: State): Look {
    Look(|s.events|, s.now)
  }

  function DelayAt(s: State): Option<nat> {
    Delay(After(s.events), s.now)
  }

  /** The payload and direction checks; when they pass, an opaque clipboard that is present is marked. */
  function Pass(s: State, id: nat, opaqueFound: Option<string>, next: Phase): State
    requires id in s.updates
  {
    var u := s.updates[id];
    if !Allowed(u.policy, u.data) then s.(updates := s.updates[id := u.(phase := Blocked)])
    else
      s.(updates := s.updates[id := u.(phase := next)],
         events := s.events + if opaqueFound.Some? then [OpaqueSeen(opaqueFound.value, s.now)] else [])
  }

  function Move(s: State, id: nat, next: Phase): State
    requires id in s.updates
  {
    s.(updates := s.updates[id := s.updates[id].(phase := next)])
  }

  /** The clipboard context is held from the write until its mark. */
  predicate ContextFree(s: State) {
    forall id :: id in s.updates ==> !s.updates[id].phase.Put?
  }

  predicate Enabled(s: State, l: Label) {
    match l
    case Wait(_) => true
    case ChangeLocally => true
    case See(_) => true
    case Arrive(id, _, _) => id !in s.updates
    case Check(id, _) => id in s.updates && s.updates[id].phase.Arrived?
    case Ask(id) => id in s.updates && s.updates[id].phase.Checked?
    case Wake(id, _) => id in s.updates && s.updates[id].phase.Sleeping? && s.updates[id].phase.until <= s.now
    case AskAgain(id) => id in s.updates && s.updates[id].phase.Rechecked?
    case PutData(id, _) => id in s.updates && s.updates[id].phase.Admitted? && ContextFree(s)
    case MarkApplied(id) => id in s.updates && s.updates[id].phase.Put?
  }

  function Next(s: State, l: Label): State
    requires Enabled(s, l)
  {
    match l
    case Wait(ms) => s.(now := s.now + ms)
    case ChangeLocally => s.(events := s.events + [LocalChange(s.now)])
    case See(clipboard) => s.(events := s.events + [OpaqueSeen(clipboard, s.now)])
    case Arrive(id, data, policy) => s.(updates := s.updates[id := Update(data, policy, Arrived)])
    case Check(id, found) => Pass(s, id, found, Checked)
    case Ask(id) =>
      var delay := DelayAt(s);
      Move(s, id, if delay.Some? then Sleeping(Here(s), s.now + delay.value) else Admitted(Here(s)))
    case Wake(id, found) => Pass(s, id, found, Rechecked(s.updates[id].phase.asked, s.updates[id].phase.until))
    case AskAgain(id) =>
      Move(s, id, if DelayAt(s).Some? then Superseded(s.updates[id].phase.asked, s.updates[id].phase.until, Here(s)) else Admitted(Here(s)))
    case PutData(id, done) =>
      var quiet := s.updates[id].phase.quiet;
      Move(s, id, if done then Put(quiet, Here(s)) else Abandoned(quiet))
    case MarkApplied(id) =>
      var p := s.updates[id].phase;
      Move(s, id, Written(p.quiet, p.put)).(events := s.events + [RemoteApply(s.now)])
  }

  predicate Initial(s: State) {
    s.events == [] && s.updates == map[]
  }

  // ---------- what every step keeps ----------

  predicate Seen(look: Look, events: seq<Event>, now: int) {
    look.events <= |events| && look.at <= now && forall i :: 0 <= i < look.events ==> events[i].at <= look.at
  }

  /** The history as it was when the answer was given. */
  function Known(events: seq<Event>, look: Look): seq<Event>
    requires look.events <= |events|
  {
    events[..look.events]
  }

  /** A quiet check asked then finds nothing unsettled. */
  predicate FoundQuiet(events: seq<Event>, look: Look) {
    look.events <= |events| && Delay(After(Known(events, look)), look.at) == None
  }

  predicate FoundDelay(events: seq<Event>, look: Look, until: int) {
    look.events <= |events| && Delay(After(Known(events, look)), look.at) == Some(until - look.at)
  }

  predicate PhaseKept(u: Update, events: seq<Event>, now: int) {
    match u.phase
    case Arrived => true
    case Blocked => !Allowed(u.policy, u.data)
    case Checked => Allowed(u.policy, u.data)
    case Sleeping(asked, until) => Allowed(u.policy, u.data) && Seen(asked, events, now) && FoundDelay(events, asked, until)
    case Rechecked(asked, until) =>
      Allowed(u.policy, u.data) && Seen(asked, events, now) && FoundDelay(events, asked, until) && until <= now
    case Admitted(quiet) => Allowed(u.policy, u.data) && Seen(quiet, events, now) && FoundQuiet(events, quiet)
    case Put(quiet, put) =>
      Allowed(u.policy, u.data) && Seen(quiet, events, now) && FoundQuiet(events, quiet) && Seen(put, events, now)
    case Written(quiet, put) =>
      Allowed(u.policy, u.data) && Seen(quiet, events, now) && FoundQuiet(events, quiet) && Seen(put, events, now)
    case Abandoned(quiet) => Allowed(u.policy, u.data) && Seen(quiet, events, now) && FoundQuiet(events, quiet)
    case Superseded(asked, until, answered) =>
      && Allowed(u.policy, u.data)
      && Seen(asked, events, now) && Seen(answered, events, now) && asked.events <= answered.events
      && FoundDelay(events, asked, until) && until <= answered.at
      && Delay(After(Known(events, answered)), answered.at).Some?
  }

  predicate Timely(events: seq<Event>, now: int) {
    Ordered(events) && forall i :: 0 <= i < |events| ==> events[i].at <= now
  }

  ghost predicate Inv(s: State) {
    Timely(s.events, s.now) && forall id :: id in s.updates ==> PhaseKept(s.updates[id], s.events, s.now)
  }

  lemma PhaseKeptOn(u: Update, events: seq<Event>, now: int, more: seq<Event>, later: int)
    requires PhaseKept(u, events, now) && now <= later
    ensures PhaseKept(u, events + more, later)
  {
    hide After, Delay, Allowed;
    forall look: Look | look.events <= |events| ensures Known(events + more, look) == Known(events, look) {
    }
  }

  lemma KnownHere(s: State)
    ensures Known(s.events, Here(s)) == s.events
  {
  }

  /** How a step extends the history, and which update it touches. */
  lemma StepShape(s: State, l: Label) returns (more: seq<Event>)
    requires Enabled(s, l)
    ensures var t := Next(s, l);
            && s.now <= t.now && t.events == s.events + more
            && |more| <= 1 && (forall i :: 0 <= i < |more| ==> more[i].at == s.now)
            && (forall id :: id in t.updates && !Touches(l, id) ==> id in s.updates && t.updates[id] == s.updates[id])
  {
    hide After, Delay, Allowed;
    var t := Next(s, l);
    more := t.events[|s.events|..];
  }

  predicate Touches(l: Label, id: nat) {
    match l
    case Wait(_) => false
    case ChangeLocally => false
    case See(_) => false
    case Arrive(i, _, _) => i == id
    case Check(i, _) => i == id
    case Ask(i) => i == id
    case Wake(i, _) => i == id
    case AskAgain(i) => i == id
    case PutData(i, _) => i == id
    case MarkApplied(i) => i == id
  }

  lemma TouchedKept(s: State, l: Label, id: nat)
    requires Inv(s) && Enabled(s, l) && Touches(l, id)
    ensures id in Next(s, l).updates
    ensures PhaseKept(Next(s, l).updates[id], Next(s, l).events, Next(s, l).now)
  {
    hide After, Delay, Allowed;
    KnownHere(s);
    var t := Next(s, l);
    if id in s.updates {
      var more := StepShape(s, l);
      PhaseKeptOn(s.updates[id], s.events, s.now, more, t.now);
    }
  }

  lemma StepKeepsInv(s: State, l: Label)
    requires Inv(s) && Enabled(s, l)
    ensures Inv(Next(s, l))
  {
    hide PhaseKept, Next, Enabled;
    var t := Next(s, l);
    var more := StepShape(s, l);
    forall id | id in t.updates ensures PhaseKept(t.updates[id], t.events, t.now) {
      if Touches(l, id) {
        TouchedKept(s, l, id);
      } else {
        PhaseKeptOn(s.updates[id], s.events, s.now, more, t.now);
      }
    }
  }

  // ---------- whole runs ----------

  predicate Runs(s: State, labels: seq<Label>)
    decreases |labels|
  {
    labels == [] || (Enabled(s, labels[0]) && Runs(Next(s, labels[0]), labels[1..]))
  }

  function Final(s: State, labels: seq<Label>): State
    requires Runs(s, labels)
    decreases |labels|
  {
    if labels == [] then s else Final(Next(s, labels[0]), labels[1..])
  }

  lemma {:induction false} InvAlongRun(s: State, labels: seq<Label>)
    requires Inv(s) && Runs(s, labels)
    ensures Inv(Final(s, labels))
    decreases |labels|
  {
    hide Inv, Next, Enabled;
    if labels != [] {
      StepKeepsInv(s, labels[0]);
      InvAlongRun(Next(s, labels[0]), labels[1..]);
    }
  }

  /** The quiet check that admitted an update, if one did. */
  function QuietCheck(p: Phase): Option<Look> {
    match p
    case Admitted(quiet) => Some(quiet)
    case Put(quiet, _) => Some(quiet)
    case Written(quiet, _) => Some(quiet)
    case Abandoned(quiet) => Some(quiet)
    case _ => None
  }

  lemma QuietMeansSettled(events: seq<Event>, now: int, look: Look)
    requires Ordered(events) && Seen(look, events, now)
    ensures Delay(After(Known(events, look)), look.at).Some? <==> Unsettled(Known(events, look), look.at)
  {
    hide Unsettled, After;
    DelayIffUnsettled(Known(events, look), look.at);
  }

  /** In every run, an update gets to the write only if its last check found nothing unsettled, and only if allowed. */
  lemma WriteOnlyAfterQuietCheck(s0: State, labels: seq<Label>, id: nat)
    requires Initial(s0) && Runs(s0, labels) && id in Final(s0, labels).updates
    requires QuietCheck(Final(s0, labels).updates[id].phase).Some?
    ensures var s := Final(s0, labels);
            var quiet := QuietCheck(s.updates[id].phase).value;
            && IsPermitted(s.updates[id].policy, s.updates[id].data)
            && quiet.events <= |s.events|
            && !Unsettled(Known(s.events, quiet), quiet.at)
  {
    hide After, Delay, Allowed, MayBeWritten, Unsettled, Runs, Final, Next, Enabled;
    InvAlongRun(s0, labels);
    var s := Final(s0, labels);
    var u := s.updates[id];
    PolicyAllowsIff(u.policy, u.data);
    var quiet := QuietCheck(u.phase).value;
    assert PhaseKept(u, s.events, s.now);
    QuietMeansSettled(s.events, s.now, quiet);
  }

  /** Event `i` is a local change that unsettles the clipboard for the check `answered`, and the check `asked` did not see it. */
  predicate NewerChange(events: seq<Event>, asked: Look, answered: Look, i: int) {
    && asked.events <= i < answered.events <= |events|
    && Moves(events, i)
    && answered.at - events[i].at < QUIET
    && NewerThanApplies(Known(events, answered), events[i].at)
  }

  /** A delayed update is dropped only for a local change that came after its first delay answer. */
  lemma DroppedOnlyForNewerChange(s0: State, labels: seq<Label>, id: nat)
    requires Initial(s0) && Runs(s0, labels) && id in Final(s0, labels).updates
    requires Final(s0, labels).updates[id].phase.Superseded?
    ensures var s := Final(s0, labels);
            var p := s.updates[id].phase;
            IsPermitted(s.updates[id].policy, s.updates[id].data) &&
            exists i :: NewerChange(s.events, p.asked, p.answered, i)
  {
    hide Next, Enabled, Runs, Final, Allowed, MayBeWritten;
    InvAlongRun(s0, labels);
    var s := Final(s0, labels);
    var p := s.updates[id].phase;
    PolicyAllowsIff(s.updates[id].policy, s.updates[id].data);
    assert PhaseKept(s.updates[id], s.events, s.now);
    LaterDelayMeansNewerChange(s.events, s.now, p.asked, p.until, p.answered);
  }

  lemma SeenByMark(events: seq<Event>, look: Look, i: int)
    requires Ordered(events) && i < look.events <= |events| && Moves(events, i)
    ensures var m := After(Known(events, look)); m.local.Some? && events[i].at <= m.local.value
  {
    hide After;
    MovesPrefix(events, look.events, i);
    LocalAfter(Known(events, look));
  }

  lemma LaterDelayMeansNewerChange(events: seq<Event>, now: int, asked: Look, until: int, answered: Look)
    requires Ordered(events) && Seen(asked, events, now) && Seen(answered, events, now)
    requires asked.events <= answered.events && FoundDelay(events, asked, until) && until <= answered.at
    requires Delay(After(Known(events, answered)), answered.at).Some?
    ensures exists i :: NewerChange(events, asked, answered, i)
  {
    hide After;
    var second := Known(events, answered);
    LocalAfter(second);
    RemoteAfter(second);
    var i :| Moves(second, i) && second[i].at == After(second).local.value;
    MovesPrefix(events, answered.events, i);
    if i < asked.events {
      SeenByMark(events, asked, i);
    }
    assert NewerChange(events, asked, answered, i);
  }

  /** One sleep of the returned delay is enough when no local change is marked after it was asked. */
  lemma OneSleepSuffices(s0: State, labels: seq<Label>, id: nat)
    requires Initial(s0) && Runs(s0, labels)
    requires Enabled(Final(s0, labels), AskAgain(id))
    requires var s := Final(s0, labels);
             forall i :: s.updates[id].phase.asked.events <= i < |s.events| ==> !Moves(s.events, i)
    ensures var s := Final(s0, labels);
            Next(s, AskAgain(id)).updates[id].phase == Admitted(Here(s))
  {
    hide After, Delay, Allowed, Moves, Runs, Final, Next, Enabled, PhaseKept;
    InvAlongRun(s0, labels);
    AskAgainAdmits(Final(s0, labels), id);
  }

  lemma AskAgainAdmits(s: State, id: nat)
    requires Inv(s) && Enabled(s, AskAgain(id))
    requires forall i :: s.updates[id].phase.asked.events <= i < |s.events| ==> !Moves(s.events, i)
    ensures Next(s, AskAgain(id)).updates[id].phase == Admitted(Here(s))
  {
    hide After, Delay, Allowed, Moves;
    var p := s.updates[id].phase;
    assert PhaseKept(s.updates[id], s.events, s.now);
    KnownHere(s);
    if DelayAt(s).Some? {
      LaterDelayMeansNewerChange(s.events, s.now, p.asked, p.until, Here(s));
    }
  }

  /** Only the first payload and direction check can block an update: after a sleep they pass again. */
  lemma ChecksPassAgain(s0: State, labels: seq<Label>, id: nat, found: Option<string>)
    requires Initial(s0) && Runs(s0, labels)
    requires Enabled(Final(s0, labels), Wake(id, found))
    ensures Next(Final(s0, labels), Wake(id, found)).updates[id].phase.Rechecked?
  {
    hide After, Delay, Allowed, Runs, Final;
    InvAlongRun(s0, labels);
    var s := Final(s0, labels);
    assert PhaseKept(s.updates[id], s.events, s.now);
  }

  // ---------- changes between the steps ----------

  /** Event `i` is a local change that keeps the clipboard unsettled. */
  predicate Fresh(events: seq<Event>, now: int, i: int) {
    Moves(events, i) && now - events[i].at < QUIET && NewerThanApplies(events, events[i].at)
  }

  /** Check and write are separate steps: a write overwrites a fresh change exactly if one was marked after the last check. */
  lemma OverwritesFreshIffMarkedSince(s0: State, labels: seq<Label>, id: nat)
    requires Initial(s0) && Runs(s0, labels)
    requires Enabled(Final(s0, labels), PutData(id, true))
    ensures var s := Final(s0, labels);
            Unsettled(s.events, s.now) <==>
            exists i :: s.updates[id].phase.quiet.events <= i && Fresh(s.events, s.now, i)
  {
    hide Allowed, Runs, Final, Next;
    InvAlongRun(s0, labels);
    var s := Final(s0, labels);
    assert PhaseKept(s.updates[id], s.events, s.now);
    FreshIsNew(s.events, s.now, s.updates[id].phase.quiet);
  }

  lemma FreshIsNew(events: seq<Event>, now: int, quiet: Look)
    requires Ordered(events) && Seen(quiet, events, now) && FoundQuiet(events, quiet)
    ensures Unsettled(events, now) <==> exists i :: quiet.events <= i && Fresh(events, now, i)
  {
    hide After, Delay;
    QuietMeansSettled(events, now, quiet);
    if Unsettled(events, now) {
      var i :| Moves(events, i) && now - events[i].at < QUIET && NewerThanApplies(events, events[i].at);
      if i < quiet.events {
        MovesPrefix(events, quiet.events, i);
      }
      assert Fresh(events, now, i);
    }
    if exists i :: quiet.events <= i && Fresh(events, now, i) {
      var i :| quiet.events <= i && Fresh(events, now, i);
      assert Moves(events, i);
    }
  }

  /** The mark settles everything before it, also what was copied after the write. */
  lemma MarkSettlesAll(s0: State, labels: seq<Label>, id: nat, later: nat)
    requires Initial(s0) && Runs(s0, labels) && Enabled(Final(s0, labels), MarkApplied(id))
    ensures var t := Next(Final(s0, labels), MarkApplied(id)); !Unsettled(t.events, t.now + later)
  {
    hide Allowed, Runs, Final;
    InvAlongRun(s0, labels);
    var s := Final(s0, labels);
    var t := Next(s, MarkApplied(id));
    assert t.events[|s.events|] == RemoteApply(s.now);
  }

  /** A run in which a brand-new change is overwritten. */
  lemma ChangeAfterCheckIsOverwritten(data: seq<Item>, now: int)
    requires DataBlockReason(data).Unblocked?
    ensures var s0 := State(now, [], map[]);
            var labels := [Arrive(0, data, Both), Check(0, None), Ask(0), ChangeLocally, PutData(0, true)];
            && Runs(s0, labels)
            && Final(s0, labels) == State(now, [LocalChange(now)], map[0 := Update(data, Both, Put(Look(0, now), Look(1, now)))])
  {
    hide DataBlockReason;
    var s0 := State(now, [], map[]);
    var s1 := Next(s0, Arrive(0, data, Both));
    var s2 := Next(s1, Check(0, None));
    var s3 := Next(s2, Ask(0));
    assert s3.updates[0].phase == Admitted(Look(0, now));
    var s4 := Next(s3, ChangeLocally);
    var s5 := Next(s4, PutData(0, true));
    assert s5.updates == map[0 := Update(data, Both, Put(Look(0, now), Look(1, now)))];
    hide Next, Enabled;
    OneMore(s4, PutData(0, true), []);
    OneMore(s3, ChangeLocally, [PutData(0, true)]);
    OneMore(s2, Ask(0), [ChangeLocally, PutData(0, true)]);
    OneMore(s1, Check(0, None), [Ask(0), ChangeLocally, PutData(0, true)]);
    OneMore(s0, Arrive(0, data, Both), [Check(0, None), Ask(0), ChangeLocally, PutData(0, true)]);
  }

  lemma OneMore(s: State, l: Label, rest: seq<Label>)
    requires Enabled(s, l) && Runs(Next(s, l), rest)
    ensures Runs(s, [l] + rest) && Final(s, [l] + rest) == Final(Next(s, l), rest)
  {
    assert ([l] + rest)[1..] == rest;
  }

  // ---------- what is let through ----------

  /** The direction lets updates in, and every item is of a kind that may be written. */
  predicate IsPermitted(policy: Policy, data: seq<Item>) {
    policy in {Both, RemoteToLocal} && forall item :: item in data ==> MayBeWritten(item)
  }

  /** In every run, a checked update is blocked exactly if its direction or one of its items forbids it. */
  lemma BlockedIffForbidden(s0: State, labels: seq<Label>, id: nat)
    requires Initial(s0) && Runs(s0, labels) && id in Final(s0, labels).updates
    requires !Final(s0, labels).updates[id].phase.Arrived?
    ensures var u := Final(s0, labels).updates[id];
            u.phase.Blocked? <==> !IsPermitted(u.policy, u.data)
  {
    hide After, Delay, Allowed, Runs, Final, Next, Enabled, MayBeWritten;
    InvAlongRun(s0, labels);
    var s := Final(s0, labels);
    assert PhaseKept(s.updates[id], s.events, s.now);
    PolicyAllowsIff(s.updates[id].policy, s.updates[id].data);
  }

  /** So one that forbids it is never written. */
  lemma ForbiddenIsNeverPut(s0: State, labels: seq<Label>, id: nat)
    requires Initial(s0) && Runs(s0, labels) && id in Final(s0, labels).updates
    requires var u := Final(s0, labels).updates[id];
             || u.policy in {LocalToRemote, Off}
             || exists item :: item in u.data && (item.Unsupported? || item.NoData? ||
                  (item.Special? && !Spells(item.name, ExcelFormat()) && !Spells(item.name, OwnerFormat())))
    ensures var p := Final(s0, labels).updates[id].phase; p.Arrived? || p.Blocked?
  {
    hide Runs, Final, Spells, ExcelFormat, OwnerFormat;
    var u := Final(s0, labels).updates[id];
    if !u.phase.Arrived? {
      BlockedIffForbidden(s0, labels, id);
      assert !IsPermitted(u.policy, u.data);
    }
  }

  // ---------- what is marked ----------

  /** An opaque clipboard found by a check of an update that is permitted. */
  predicate Finds(s: State, id: nat, found: Option<string>) {
    found.Some? && id in s.updates && IsPermitted(s.updates[id].policy, s.updates[id].data)
  }

  /** What a step adds to the history. */
  function MarkOf(s: State, l: Label): (more: seq<Event>)
    ensures |more| <= 1 && (more != [] ==> (more[0].RemoteApply? <==> l.MarkApplied?)) && (l.MarkApplied? ==> more != [])
  {
    match l
    case ChangeLocally => [LocalChange(s.now)]
    case See(clipboard) => [OpaqueSeen(clipboard, s.now)]
    case Check(id, found) => if Finds(s, id, found) then [OpaqueSeen(found.value, s.now)] else []
    case Wake(id, found) => if Finds(s, id, found) then [OpaqueSeen(found.value, s.now)] else []
    case MarkApplied(_) => [RemoteApply(s.now)]
    case _ => []
  }

  /** The history grows by what happens: local changes, sightings, and the marks of written updates. */
  lemma HistoryIsWhatHappened(s: State, l: Label)
    requires Enabled(s, l)
    ensures Next(s, l).now == s.now + (if l.Wait? then l.ms else 0)
    ensures Next(s, l).events == s.events + MarkOf(s, l)
  {
    hide DelayAt, Allowed, MayBeWritten;
    assert s.events + [] == s.events;
    if l.Check? || l.Wake? {
      PolicyAllowsIff(s.updates[l.id].policy, s.updates[l.id].data);
    }
  }

  /** What an update carries, and its direction, stay as they arrived. */
  lemma UpdateStays(s: State, l: Label, id: nat)
    requires Enabled(s, l) && id in s.updates
    ensures var t := Next(s, l);
            id in t.updates && t.updates[id].data == s.updates[id].data && t.updates[id].policy == s.updates[id].policy
  {
    hide DelayAt, Allowed;
  }

  /** An update was marked as applied at this very moment. */
  predicate AppliedNow(events: seq<Event>, now: int) {
    RemoteApply(now) in events
  }

  /**
   A new sighting in a check holds the update back for the whole quiet time, and drops it after its sleep, unless another
   update is marked as applied in the same millisecond.
   */
  lemma SightingHoldsBack(s0: State, labels: seq<Label>, id: nat, found: string)
    requires Initial(s0) && Runs(s0, labels)
    requires var s := Final(s0, labels);
             && id in s.updates && IsPermitted(s.updates[id].policy, s.updates[id].data) && IsNewSighting(s.events, found)
    ensures var s := Final(s0, labels);
            && (Enabled(s, Check(id, Some(found))) ==>
                  var t := Next(s, Check(id, Some(found)));
                  Enabled(t, Ask(id)) && Next(t, Ask(id)).updates[id].phase ==
                    if AppliedNow(s.events, s.now) then Admitted(Here(t)) else Sleeping(Here(t), s.now + 750))
            && (Enabled(s, Wake(id, Some(found))) ==>
                  var t := Next(s, Wake(id, Some(found)));
                  Enabled(t, AskAgain(id)) &&
                  (Next(t, AskAgain(id)).updates[id].phase.Superseded? <==> !AppliedNow(s.events, s.now)))
  {
    hide Runs, Final, MayBeWritten, Allowed, After, Delay, IsNewSighting;
    InvAlongRun(s0, labels);
    var s := Final(s0, labels);
    PolicyAllowsIff(s.updates[id].policy, s.updates[id].data);
    FreshSighting(s.events, found, s.now);
  }

  /** The event before, if any, is no sighting of the same clipboard. */
  predicate IsNewSighting(events: seq<Event>, found: string) {
    events != [] ==> !(events[|events| - 1].OpaqueSeen? && events[|events| - 1].signature == found)
  }

  lemma FreshSighting(events: seq<Event>, found: string, now: int)
    requires Timely(events, now) && IsNewSighting(events, found)
    ensures Delay(After(events + [OpaqueSeen(found, now)]), now) == if AppliedNow(events, now) then None else Some(750)
  {
    var e := OpaqueSeen(found, now);
    OpaqueAfter(events);
    RemoteAfter(events);
    assert (events + [e])[..|events|] == events;
    var m := After(events);
    assert After(events + [e]) == Mark(m, e);
    hide After;
    if AppliedNow(events, now) {
      var i :| 0 <= i < |events| && events[i] == RemoteApply(now);
      assert m.remote.Some? && now <= m.remote.value;
    } else if m.remote.Some? {
      var i :| 0 <= i < |events| && events[i].RemoteApply? && events[i].at == m.remote.value;
      assert events[i] == RemoteApply(m.remote.value);
    }
  }

  // ---------- marks and writes ----------

  function Applies(events: seq<Event>): nat {
    if events == [] then 0
    else Applies(events[..|events| - 1]) + if events[|events| - 1].RemoteApply? then 1 else 0
  }

  function WrittenIds(s: State): set<nat> {
    set id | id in s.updates && s.updates[id].phase.Written?
  }

  lemma AppliesSnoc(events: seq<Event>, e: Event)
    ensures Applies(events + [e]) == Applies(events) + if e.RemoteApply? then 1 else 0
  {
    assert (events + [e])[..|events|] == events;
  }

  lemma StepKeepsCount(s: State, l: Label)
    requires Enabled(s, l) && Applies(s.events) == |WrittenIds(s)|
    ensures Applies(Next(s, l).events) == |WrittenIds(Next(s, l))|
  {
    hide Applies, MayBeWritten, IsPermitted, Enabled, Next, WrittenIds;
    HistoryIsWhatHappened(s, l);
    var more := MarkOf(s, l);
    assert Next(s, l).events == s.events + more;
    if more == [] {
      assert s.events + more == s.events;
    } else {
      AppliesSnoc(s.events, more[0]);
    }
    WrittenByMark(s, l);
  }

  lemma WrittenByMark(s: State, l: Label)
    requires Enabled(s, l)
    ensures |WrittenIds(Next(s, l))| == |WrittenIds(s)| + if l.MarkApplied? then 1 else 0
  {
    hide DelayAt, Allowed;
    var t := Next(s, l);
    if l.MarkApplied? {
      assert WrittenIds(t) == WrittenIds(s) + {l.id} && l.id !in WrittenIds(s);
    } else {
      assert WrittenIds(t) == WrittenIds(s);
    }
  }

  /** In every run there are as many apply marks as written updates: what failed to be written, or was dropped, settles nothing. */
  lemma {:induction false} MarksAreWrites(s: State, labels: seq<Label>)
    requires Runs(s, labels) && Applies(s.events) == |WrittenIds(s)|
    ensures Applies(Final(s, labels).events) == |WrittenIds(Final(s, labels))|
    decreases |labels|
  {
    hide Next, Enabled, Applies, WrittenIds;
    if labels != [] {
      StepKeepsCount(s, labels[0]);
      MarksAreWrites(Next(s, labels[0]), labels[1..]);
    }
  }

  // ---------- one writer at a time ----------

  ghost predicate OneWriter(s: State) {
    forall i, j :: i in s.updates && j in s.updates && s.updates[i].phase.Put? && s.updates[j].phase.Put? ==> i == j
  }

  lemma StepKeepsOneWriter(s: State, l: Label)
    requires Enabled(s, l) && OneWriter(s)
    ensures OneWriter(Next(s, l))
  {
    hide DelayAt, Allowed;
  }

  /** Between its write and its mark an update is alone with the clipboard. */
  lemma {:induction false} AloneBetweenWriteAndMark(s: State, labels: seq<Label>)
    requires Runs(s, labels) && OneWriter(s)
    ensures OneWriter(Final(s, labels))
    decreases |labels|
  {
    hide Next, Enabled, OneWriter;
    if labels != [] {
      StepKeepsOneWriter(s, labels[0]);
      AloneBetweenWriteAndMark(Next(s, labels[0]), labels[1..]);
    }
  }

  // ---------- nothing hangs ----------

  predicate IsFinished(p: Phase) {
    p.Written? || p.Abandoned? || p.Blocked? || p.Superseded?
  }

  /** Time, local changes, sightings and new updates can come at any moment, as often as they like. */
  lemma AnythingCanCome(s: State, ms: nat, clipboard: string, id: nat, data: seq<Item>, policy: Policy)
    ensures Enabled(s, Wait(ms)) && Enabled(s, ChangeLocally) && Enabled(s, See(clipboard))
    ensures Enabled(s, Arrive(id, data, policy)) <==> id !in s.updates
  {
  }

  /** An update that is not finished can go on: at once, when its sleep is over, or when the update before it is marked. */
  lemma UpdateGoesOn(s: State, id: nat, found: Option<string>, done: bool)
    requires id in s.updates && !IsFinished(s.updates[id].phase)
    ensures match s.updates[id].phase
            case Arrived => Enabled(s, Check(id, found))
            case Checked => Enabled(s, Ask(id))
            case Sleeping(_, until) =>
              var ms := Max(0, until - s.now);
              Enabled(s, Wait(ms)) && Enabled(Next(s, Wait(ms)), Wake(id, found))
            case Rechecked(_, _) => Enabled(s, AskAgain(id))
            case Admitted(_) =>
              Enabled(s, PutData(id, done)) || exists other :: Enabled(s, MarkApplied(other))
            case _ => Enabled(s, MarkApplied(id))
  {
    if s.updates[id].phase.Admitted? && !ContextFree(s) {
      var other :| other in s.updates && s.updates[other].phase.Put?;
      assert Enabled(s, MarkApplied(other));
    }
  }

  /** A write that succeeds is marked next, at whatever time; one that fails ends the update and leaves no mark. */
  lemma WriteOutcome(s: State, id: nat, done: bool)
    requires Enabled(s, PutData(id, done))
    ensures var t := Next(s, PutData(id, done));
            && t.events == s.events && t.now == s.now
            && (if done then Enabled(t, MarkApplied(id)) && Next(t, MarkApplied(id)).updates[id].phase.Written?
                else IsFinished(t.updates[id].phase) && !t.updates[id].phase.Written?)
  {
  }

  /** A check lets an update through or blocks it, and the one after its sleep never blocks. */
  lemma CheckDecides(s0: State, labels: seq<Label>, id: nat, found: Option<string>)
    requires Initial(s0) && Runs(s0, labels)
    ensures var s := Final(s0, labels);
            && (Enabled(s, Check(id, found)) ==>
                  Next(s, Check(id, found)).updates[id].phase ==
                  if IsPermitted(s.updates[id].policy, s.updates[id].data) then Checked else Blocked)
            && (Enabled(s, Wake(id, found)) ==>
                  && IsPermitted(s.updates[id].policy, s.updates[id].data)
                  && Next(s, Wake(id, found)).updates[id].phase.Rechecked?)
  {
    hide Runs, Final, MayBeWritten, Allowed, After, Delay;
    InvAlongRun(s0, labels);
    var s := Final(s0, labels);
    if id in s.updates {
      PolicyAllowsIff(s.updates[id].policy, s.updates[id].data);
      assert PhaseKept(s.updates[id], s.events, s.now);
    }
  }
}
