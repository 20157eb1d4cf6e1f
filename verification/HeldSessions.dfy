/**
 Held keys while the grab changes hands (src/keyboard.rs:317-345, 380-412, 826-874).

 One to-release map serves all sessions, but each session's peer has its own idea of which keys are down. A Run that
 takes the grab over releases nothing. A release takes the map in the owner's critical section and sends the key events
 later, one by one, while the next owner may already be typing: both touch the shared maps.
 */
module HeldSessions {
  import opened Prelude
  import opened HeldKeys

  type Session = nat

  type Tables = Session -> CodeTable

  /** The events of a release that are still to be sent to its session. */
  datatype Flush = Flush(session: Session, rest: seq<Event>)

  datatype Shared = Shared(owner: Option<Session>, toRelease: map<Key, Event>, modifiers: map<Key, bool>,
                           peers: map<Session, set<int>>, flushes: seq<Flush>)

  const START := Shared(None, map[], NO_MODIFIER, map[], [])

  /** The codes down at a session's peer. */
  function Down(x: Shared, q: Session): set<int> {
    if q in x.peers then x.peers[q] else {}
  }

  /** The shared maps with one session's peer. */
  function View(x: Shared, q: Session): Held {
    Held(x.toRelease, x.modifiers, Down(x, q))
  }

  function With(x: Shared, q: Session, h: Held): Shared {
    x.(toRelease := h.toRelease, modifiers := h.modifiers, peers := x.peers[q := h.peerDown])
  }

  datatype Step =
    | Run(session: Session)
    | KeyEvent(e: Event)
    | Take(available: bool, order: seq<Key>)
    | SendNext(flush: nat)

  ghost predicate StepOk(x: Shared, l: Step, position: Key -> nat) {
    match l
    case Run(_) => true
    case KeyEvent(e) => Positioned(e, position)
    case Take(_, order) => x.owner.Some? && IsOrderOf(order, x.toRelease.Keys)
    case SendNext(i) => i < |x.flushes| && x.flushes[i].rest != []
  }

  /** The release of an unavailable session takes the map and sends nothing. */
  function Next(x: Shared, l: Step, tables: Tables): Shared
    requires l.Take? ==> x.owner.Some? && forall k :: k in l.order ==> k in x.toRelease
    requires l.SendNext? ==> l.flush < |x.flushes| && x.flushes[l.flush].rest != []
  {
    match l
    case Run(s) => x.(owner := Some(s))
    case KeyEvent(e) => if x.owner.None? then x else Processed(x, x.owner.value, e, tables)
    case Take(available, order) =>
      x.(owner := None, toRelease := map[],
         flushes := x.flushes + if available then [Flush(x.owner.value, FlushEvents(x.toRelease, order))] else [])
    case SendNext(i) =>
      var f := x.flushes[i];
      Processed(x, f.session, f.rest[0], tables).(flushes := x.flushes[i := f.(rest := f.rest[1..])])
  }

  /** One event goes through the shared maps to one session. */
  function Processed(x: Shared, q: Session, e: Event, tables: Tables): Shared {
    With(x, q, Process(View(x, q), e, tables(q)))
  }

  // ---------- what a release does when nothing comes between ----------

  function CodeOf(k: Key, position: Key -> nat, table: CodeTable): set<int> {
    match table(position(k)) case Some(c) => {c} case None => {}
  }

  function Codes(keys: set<Key>, position: Key -> nat, table: CodeTable): set<int> {
    set k, c | k in keys && c in CodeOf(k, position, table) :: c
  }

  function Members(order: seq<Key>): set<Key> {
    set k | k in order
  }

  lemma SendsCode(peer: set<int>, e: Event, k: Key, position: Key -> nat, table: CodeTable)
    requires e.position == position(k)
    ensures e.kind == KeyPress(k) ==> Send(peer, e, table) == peer + CodeOf(k, position, table)
    ensures e.kind == KeyRelease(k) ==> Send(peer, e, table) == peer - CodeOf(k, position, table)
  {
  }

  lemma UpExactly(h: Held, k: Key, up: Event, position: Key -> nat, table: CodeTable)
    requires h.toRelease.Keys <= {k} && h.modifiers.Keys == MODIFIERS
    requires up == Event(KeyRelease(k), position(k))
    ensures Process(h, up, table) == Held(map[], Unmarked(h.modifiers, k), h.peerDown - CodeOf(k, position, table))
  {
    SendsCode(h.peerDown, up, k, position, table);
    assert h.toRelease - {k} == map[];
  }

  function Unmarked(m: map<Key, bool>, k: Key): map<Key, bool> {
    if k in MODIFIERS then m[k := false] else m
  }

  lemma DownUp(h: Held, k: Key, down: Event, up: Event, position: Key -> nat, table: CodeTable)
    requires h.toRelease == map[] && h.modifiers.Keys == MODIFIERS
    requires down == Event(KeyPress(k), position(k)) && up == Event(KeyRelease(k), position(k))
    ensures Process(Process(h, down, table), up, table)
            == Held(map[], Unmarked(h.modifiers, k), h.peerDown - CodeOf(k, position, table))
  {
    var h' := Process(h, down, table);
    SendsCode(h.peerDown, down, k, position, table);
    UpExactly(h', k, up, position, table);
    assert Unmarked(h'.modifiers, k) == Unmarked(h.modifiers, k);
  }

  lemma ReleaseExactly(h: Held, k: Key, pressed: Event, position: Key -> nat, table: CodeTable)
    requires h.toRelease == map[] && h.modifiers.Keys == MODIFIERS && pressed.position == position(k)
    ensures ProcessAll(h, ReleaseEvents(k, pressed), table)
            == Held(map[], Unmarked(h.modifiers, k), h.peerDown - CodeOf(k, position, table))
  {
    var up, down := pressed.(kind := KeyRelease(k)), pressed.(kind := KeyPress(k));
    var h1 := Process(h, up, table);
    UpExactly(h, k, up, position, table);
    ProcessAllFirst(h, [up], table);
    if k == Alt || k == AltGr {
      DownUp(h1, k, down, up, position, table);
      var h2 := Process(h1, down, table);
      hide Process, CodeOf, ProcessAll, Unmarked;
      ProcessAllSnoc(h, [up], down, table);
      ProcessAllSnoc(h, [up, down], up, table);
      assert [up] + [down] == [up, down] && [up, down] + [up] == [up, down, up];
    }
  }

  lemma {:induction false} FlushExactly(h: Held, taken: map<Key, Event>, order: seq<Key>, position: Key -> nat, table: CodeTable)
    requires h.toRelease == map[] && h.modifiers.Keys == MODIFIERS && StoredPositioned(taken, position)
    requires forall k :: k in order ==> k in taken
    ensures var r := ProcessAll(h, FlushEvents(taken, order), table);
            && r.toRelease == map[] && r.modifiers.Keys == MODIFIERS
            && (forall k :: k in MODIFIERS ==> (r.modifiers[k] <==> h.modifiers[k] && k !in order))
            && r.peerDown == h.peerDown - Codes(Members(order), position, table)
  {
    hide ReleaseEvents, CodeOf, Codes, Process;
    if order == [] {
      assert Members(order) == {};
      NoCodes(position, table);
    } else {
      var k, front := order[|order| - 1], order[..|order| - 1];
      FlushExactly(h, taken, front, position, table);
      assert FlushEvents(taken, order) == FlushEvents(taken, front) + ReleaseEvents(k, taken[k]);
      hide ProcessAll, FlushEvents, Members;
      ProcessAllConcat(h, FlushEvents(taken, front), ReleaseEvents(k, taken[k]), table);
      ReleaseExactly(ProcessAll(h, FlushEvents(taken, front), table), k, taken[k], position, table);
      assert order == front + [k];
      CodesSnoc(front, k, position, table);
    }
  }

  lemma NoCodes(position: Key -> nat, table: CodeTable)
    ensures Codes({}, position, table) == {}
  {
  }

  lemma CodesSnoc(front: seq<Key>, k: Key, position: Key -> nat, table: CodeTable)
    ensures Codes(Members(front + [k]), position, table)
            == Codes(Members(front), position, table) + CodeOf(k, position, table)
  {
    hide CodeOf;
    var all, before := Members(front + [k]), Members(front);
    forall c ensures c in Codes(all, position, table) <==> c in Codes(before, position, table) + CodeOf(k, position, table) {
      if c in CodeOf(k, position, table) {
        assert k in all;
      }
      if c in Codes(before, position, table) {
        var q :| q in before && c in CodeOf(q, position, table);
        assert q in all;
      }
    }
  }

  /** The release in one go. */
  function Released(x: Shared, order: seq<Key>, tables: Tables): Shared
    requires x.owner.Some? && forall k :: k in order ==> k in x.toRelease
  {
    var s := x.owner.value;
    With(x, s, ProcessAll(Forget(View(x, s)), FlushEvents(x.toRelease, order), tables(s))).(owner := None)
  }

  ghost predicate WellKept(x: Shared, position: Key -> nat) {
    x.modifiers.Keys == MODIFIERS && StoredPositioned(x.toRelease, position)
  }

  /** It takes exactly the recorded codes off the owner's peer. */
  lemma ReleasedExactly(x: Shared, order: seq<Key>, position: Key -> nat, tables: Tables)
    requires WellKept(x, position) && x.owner.Some? && IsOrderOf(order, x.toRelease.Keys)
    ensures var s, y := x.owner.value, Released(x, order, tables);
            && y.toRelease == map[] && y.modifiers.Keys == MODIFIERS
            && (forall k :: k in MODIFIERS ==> (y.modifiers[k] <==> x.modifiers[k] && k !in x.toRelease))
            && Down(y, s) == Down(x, s) - Codes(x.toRelease.Keys, position, tables(s))
            && forall q: Session :: q != s ==> Down(y, q) == Down(x, q)
  {
    hide ProcessAll, FlushEvents, Codes;
    var s := x.owner.value;
    assert Members(order) == x.toRelease.Keys;
    FlushExactly(Forget(View(x, s)), x.toRelease, order, position, tables(s));
  }

  ghost predicate AllUp(x: Shared) {
    forall q: Session :: Down(x, q) == {}
  }

  /** An undisturbed release clears every peer exactly if no other peer holds a key and the owner's holds recorded ones. */
  lemma ReleaseClearsAllIff(x: Shared, order: seq<Key>, position: Key -> nat, tables: Tables)
    requires WellKept(x, position) && x.owner.Some? && IsOrderOf(order, x.toRelease.Keys)
    ensures var s := x.owner.value;
            AllUp(Released(x, order, tables)) <==>
            && (forall q: Session :: q != s ==> Down(x, q) == {})
            && Down(x, s) <= Codes(x.toRelease.Keys, position, tables(s))
  {
    hide Codes, Released, Down;
    ReleasedExactly(x, order, position, tables);
    var s, y := x.owner.value, Released(x, order, tables);
    var codes := Codes(x.toRelease.Keys, position, tables(s));
    assert Down(x, s) <= codes <==> Down(x, s) - codes == {} by {
      DifferenceEmpty(Down(x, s), codes);
    }
    if AllUp(y) {
      forall q: Session | q != s ensures Down(x, q) == {} {
        assert Down(y, q) == {};
      }
      assert Down(y, s) == {};
    }
  }

  lemma DifferenceEmpty(a: set<int>, b: set<int>)
    ensures a - b == {} <==> a <= b
  {
    if a - b == {} {
      forall c | c in a ensures c in b {
        assert c !in a - b;
      }
    }
  }

  /** All that is left of a flush is sent. */
  function Drained(x: Shared, i: nat, tables: Tables): Shared
    requires i < |x.flushes|
    decreases |x.flushes[i].rest|
  {
    if x.flushes[i].rest == [] then x else Drained(Next(x, SendNext(i), tables), i, tables)
  }

  /** Sending one event of a flush is processing it for its session. */
  lemma SendIsProcess(x: Shared, i: nat, tables: Tables)
    requires i < |x.flushes| && x.flushes[i].rest != []
    ensures var f, y := x.flushes[i], Next(x, SendNext(i), tables);
            && y.owner == x.owner && |y.flushes| == |x.flushes| && y.flushes[i] == f.(rest := f.rest[1..])
            && View(y, f.session) == Process(View(x, f.session), f.rest[0], tables(f.session))
            && forall q: Session :: q != f.session ==> Down(y, q) == Down(x, q)
  {
    hide Process;
  }

  lemma {:induction false} ProcessAllFirst(h: Held, es: seq<Event>, table: CodeTable)
    requires es != []
    ensures ProcessAll(h, es, table) == ProcessAll(Process(h, es[0], table), es[1..], table)
  {
    hide Process;
    ProcessAllConcat(h, [es[0]], es[1..], table);
    ProcessAllSnoc(h, [], es[0], table);
    assert [] + [es[0]] == [es[0]] && [es[0]] + es[1..] == es;
  }

  lemma {:induction false} DrainedExactly(x: Shared, i: nat, tables: Tables)
    requires i < |x.flushes|
    ensures var s, y := x.flushes[i].session, Drained(x, i, tables);
            var h := ProcessAll(View(x, s), x.flushes[i].rest, tables(s));
            && y.owner == x.owner && View(y, s) == h
            && forall q: Session :: q != s ==> Down(y, q) == Down(x, q)
    decreases |x.flushes[i].rest|
  {
    hide Process, Down;
    var f := x.flushes[i];
    if f.rest != [] {
      SendIsProcess(x, i, tables);
      hide Next, ProcessAll;
      DrainedExactly(Next(x, SendNext(i), tables), i, tables);
      ProcessAllFirst(View(x, f.session), f.rest, tables(f.session));
    }
  }

  /** Taking the map and sending all events with nothing between is the release in one go. */
  lemma TakeAndDrain(x: Shared, order: seq<Key>, tables: Tables)
    requires x.owner.Some? && forall k :: k in order ==> k in x.toRelease
    ensures var y, z := Drained(Next(x, Take(true, order), tables), |x.flushes|, tables), Released(x, order, tables);
            && y.toRelease == z.toRelease && y.modifiers == z.modifiers
            && forall q: Session :: Down(y, q) == Down(z, q)
  {
    hide ProcessAll, FlushEvents, Drained;
    var taken := Next(x, Take(true, order), tables);
    DrainedExactly(taken, |x.flushes|, tables);
    assert View(taken, x.owner.value) == Forget(View(x, x.owner.value));
  }

  // ---------- whole runs, with anything between ----------

  ghost predicate IsRun(states: seq<Shared>, steps: seq<Step>, position: Key -> nat, tables: Tables) {
    && |states| == |steps| + 1
    && states[0] == START
    && forall i :: 0 <= i < |steps| ==> StepAt(states, steps, i, position, tables)
  }

  ghost predicate StepAt(states: seq<Shared>, steps: seq<Step>, i: nat, position: Key -> nat, tables: Tables)
    requires |states| == |steps| + 1 && i < |steps|
  {
    Moves(states[i], steps[i], states[i + 1], position, tables)
  }

  ghost predicate Moves(x: Shared, l: Step, y: Shared, position: Key -> nat, tables: Tables) {
    StepOk(x, l, position) && y == Next(x, l, tables)
  }

  /** Nobody has the grab and every release has been sent. */
  predicate Quiet(x: Shared) {
    x.owner.None? && forall i :: 0 <= i < |x.flushes| ==> x.flushes[i].rest == []
  }

  /** An event to come releases the key. */
  predicate ReleasesKey(e: Event, k: Key) {
    e.kind == KeyRelease(k)
  }

  ghost predicate Releases(rest: seq<Event>, k: Key) {
    exists j :: 0 <= j < |rest| && ReleasesKey(rest[j], k)
  }

  /** Every event carries its key's position, and every press is followed by its release. */
  ghost predicate WellEnded(rest: seq<Event>, position: Key -> nat) {
    && (forall j :: 0 <= j < |rest| ==> Positioned(rest[j], position))
    && (forall j: nat, k :: j < |rest| && rest[j].kind == KeyPress(k) ==> ReleasedAfter(rest, j, k))
  }

  predicate ReleasedAfter(rest: seq<Event>, j: nat, k: Key) {
    exists n :: j < n < |rest| && ReleasesKey(rest[n], k)
  }

  lemma WellEndedRest(rest: seq<Event>, position: Key -> nat)
    requires WellEnded(rest, position) && rest != []
    ensures WellEnded(rest[1..], position)
    ensures forall k :: rest[0].kind == KeyPress(k) ==> Releases(rest[1..], k)
    ensures forall k :: Releases(rest, k) ==> ReleasesKey(rest[0], k) || Releases(rest[1..], k)
  {
    var t := rest[1..];
    forall j: nat, k | j < |t| && t[j].kind == KeyPress(k) ensures ReleasedAfter(t, j, k) {
      assert ReleasedAfter(rest, j + 1, k);
      var n :| j + 1 < n < |rest| && ReleasesKey(rest[n], k);
      assert ReleasesKey(t[n - 1], k);
    }
    forall k | rest[0].kind == KeyPress(k) ensures Releases(t, k) {
      assert ReleasedAfter(rest, 0, k);
      var n :| 0 < n < |rest| && ReleasesKey(rest[n], k);
      assert ReleasesKey(t[n - 1], k);
    }
    forall k | Releases(rest, k) && !ReleasesKey(rest[0], k) ensures Releases(t, k) {
      var n :| 0 <= n < |rest| && ReleasesKey(rest[n], k);
      assert ReleasesKey(t[n - 1], k);
    }
  }

  lemma WellEndedConcat(a: seq<Event>, b: seq<Event>, position: Key -> nat)
    requires WellEnded(a, position) && WellEnded(b, position)
    ensures WellEnded(a + b, position)
  {
    var c := a + b;
    forall j: nat, k | j < |c| && c[j].kind == KeyPress(k) ensures ReleasedAfter(c, j, k) {
      if j < |a| {
        assert ReleasedAfter(a, j, k);
        var n :| j < n < |a| && ReleasesKey(a[n], k);
        assert c[n] == a[n];
      } else {
        assert ReleasedAfter(b, j - |a|, k);
        var n :| j - |a| < n < |b| && ReleasesKey(b[n], k);
        assert c[n + |a|] == b[n];
      }
    }
  }

  lemma ReleasesConcat(a: seq<Event>, b: seq<Event>, k: Key)
    ensures Releases(a + b, k) <==> Releases(a, k) || Releases(b, k)
  {
    var c := a + b;
    if Releases(a, k) {
      var j :| 0 <= j < |a| && ReleasesKey(a[j], k);
      assert ReleasesKey(c[j], k);
    }
    if Releases(b, k) {
      var j :| 0 <= j < |b| && ReleasesKey(b[j], k);
      assert ReleasesKey(c[|a| + j], k);
    }
    if Releases(c, k) {
      var j :| 0 <= j < |c| && ReleasesKey(c[j], k);
      assert if j < |a| then ReleasesKey(a[j], k) else ReleasesKey(b[j - |a|], k);
    }
  }

  lemma OneKeyEnded(k: Key, pressed: Event, position: Key -> nat)
    requires pressed.position == position(k)
    ensures WellEnded(ReleaseEvents(k, pressed), position)
    ensures forall q :: Releases(ReleaseEvents(k, pressed), q) <==> q == k
  {
    var es := ReleaseEvents(k, pressed);
    assert ReleasesKey(es[0], k);
    if |es| == 3 {
      assert ReleasesKey(es[2], k);
    }
  }

  /** The events of a release are well ended, and release exactly the keys of the map. */
  lemma {:induction false} FlushShape(taken: map<Key, Event>, order: seq<Key>, position: Key -> nat)
    requires StoredPositioned(taken, position) && forall k :: k in order ==> k in taken
    ensures WellEnded(FlushEvents(taken, order), position)
    ensures forall k :: Releases(FlushEvents(taken, order), k) <==> k in order
  {
    hide ReleaseEvents, WellEnded, Releases;
    if order == [] {
      NothingEnded(position);
    } else {
      var k, front := order[|order| - 1], order[..|order| - 1];
      FlushShape(taken, front, position);
      OneKeyEnded(k, taken[k], position);
      var a, b := FlushEvents(taken, front), ReleaseEvents(k, taken[k]);
      WellEndedConcat(a, b, position);
      assert FlushEvents(taken, order) == a + b && order == front + [k];
      forall q ensures Releases(a + b, q) <==> q in order {
        ReleasesConcat(a, b, q);
      }
    }
  }

  lemma NothingEnded(position: Key -> nat)
    ensures WellEnded([], position) && forall k :: !Releases([], k)
  {
  }

  /** What holds whatever comes between. */
  ghost predicate Base(x: Shared, position: Key -> nat) {
    WellKept(x, position) && forall i :: 0 <= i < |x.flushes| ==> WellEnded(x.flushes[i].rest, position)
  }

  lemma EventKeepsMaps(h: Held, e: Event, position: Key -> nat, table: CodeTable)
    requires h.modifiers.Keys == MODIFIERS && StoredPositioned(h.toRelease, position) && Positioned(e, position)
    ensures var r := Process(h, e, table); r.modifiers.Keys == MODIFIERS && StoredPositioned(r.toRelease, position)
  {
  }

  lemma StepKeepsBase(x: Shared, l: Step, position: Key -> nat, tables: Tables)
    requires Base(x, position) && StepOk(x, l, position)
    ensures Base(Next(x, l, tables), position)
  {
    hide Process, WellEnded, FlushEvents;
    match l
    case Run(_) =>
    case KeyEvent(e) =>
      if x.owner.Some? {
        EventKeepsMaps(View(x, x.owner.value), e, position, tables(x.owner.value));
      }
    case Take(_, order) => FlushShape(x.toRelease, order, position);
    case SendNext(i) =>
      var f := x.flushes[i];
      WellEndedRest(f.rest, position);
      FirstPositioned(f.rest, position);
      EventKeepsMaps(View(x, f.session), f.rest[0], position, tables(f.session));
  }

  lemma FirstPositioned(rest: seq<Event>, position: Key -> nat)
    requires WellEnded(rest, position) && rest != []
    ensures Positioned(rest[0], position)
  {
  }

  lemma {:induction false} RunKeepsBase(states: seq<Shared>, steps: seq<Step>, i: nat, position: Key -> nat, tables: Tables)
    requires IsRun(states, steps, position, tables) && i < |states|
    ensures Base(states[i], position)
  {
    hide Next, Base, StepOk;
    if i > 0 {
      RunKeepsBase(states, steps, i - 1, position, tables);
      assert StepAt(states, steps, i - 1, position, tables);
      StepKeepsBase(states[i - 1], steps[i - 1], position, tables);
    } else {
      StartBase(position);
    }
  }

  lemma StartBase(position: Key -> nat)
    ensures Base(START, position)
  {
  }

  // ---------- codes that no release reaches any more ----------

  predicate LiftsCode(e: Event, c: int, table: CodeTable) {
    e.kind.KeyRelease? && table(e.position) == Some(c)
  }

  ghost predicate Lifts(rest: seq<Event>, c: int, table: CodeTable) {
    exists j :: 0 <= j < |rest| && LiftsCode(rest[j], c, table)
  }

  /** An event still to be sent to the session releases the code. */
  ghost predicate IsComing(x: Shared, q: Session, c: int, tables: Tables) {
    exists i :: 0 <= i < |x.flushes| && FlushLifts(x.flushes[i], q, c, tables)
  }

  ghost predicate FlushLifts(f: Flush, q: Session, c: int, tables: Tables) {
    f.session == q && Lifts(f.rest, c, tables(q))
  }

  /** The code is down at the session's peer, and no event still to be sent releases it. */
  ghost predicate Left(x: Shared, q: Session, c: int, tables: Tables) {
    c in Down(x, q) && !IsComing(x, q, c, tables)
  }

  ghost predicate Covered(x: Shared, q: Session, tables: Tables) {
    forall c :: !Left(x, q, c, tables)
  }

  predicate Loses(x: Shared, l: Step, q: Session) {
    x.owner == Some(q) && (l.Take? || (l.Run? && l.session != q))
  }

  /** The step takes the grab from `q` with a code down that no release to come nor this one will release. */
  ghost predicate Strands(x: Shared, l: Step, q: Session, position: Key -> nat, tables: Tables) {
    && Loses(x, l, q)
    && exists c :: Left(x, q, c, tables) && !TakesCode(x, l, q, c, position, tables)
  }

  predicate TakesCode(x: Shared, l: Step, q: Session, c: int, position: Key -> nat, tables: Tables) {
    l.Take? && l.available && c in Codes(x.toRelease.Keys, position, tables(q))
  }

  lemma LiftsFirst(rest: seq<Event>, c: int, table: CodeTable)
    requires rest != []
    ensures Lifts(rest, c, table) <==> LiftsCode(rest[0], c, table) || Lifts(rest[1..], c, table)
  {
    var t := rest[1..];
    if Lifts(t, c, table) {
      var j :| 0 <= j < |t| && LiftsCode(t[j], c, table);
      assert LiftsCode(rest[j + 1], c, table);
    }
    if Lifts(rest, c, table) && !LiftsCode(rest[0], c, table) {
      var j :| 0 <= j < |rest| && LiftsCode(rest[j], c, table);
      assert LiftsCode(t[j - 1], c, table);
    }
  }

  /** The events of a release lift exactly the codes of the keys taken. */
  lemma FlushLiftsCodes(taken: map<Key, Event>, order: seq<Key>, c: int, position: Key -> nat, table: CodeTable)
    requires StoredPositioned(taken, position) && IsOrderOf(order, taken.Keys)
    ensures Lifts(FlushEvents(taken, order), c, table) <==> c in Codes(taken.Keys, position, table)
  {
    hide FlushEvents;
    var rest := FlushEvents(taken, order);
    FlushShape(taken, order, position);
    if Lifts(rest, c, table) {
      var j :| 0 <= j < |rest| && LiftsCode(rest[j], c, table);
      var k := rest[j].kind.key;
      assert ReleasesKey(rest[j], k) && Releases(rest, k);
      assert c in CodeOf(k, position, table);
    }
    if c in Codes(taken.Keys, position, table) {
      var k :| k in taken.Keys && c in CodeOf(k, position, table);
      assert Releases(rest, k);
      var j :| 0 <= j < |rest| && ReleasesKey(rest[j], k);
      assert LiftsCode(rest[j], c, table);
    }
  }

  lemma TakeComing(x: Shared, l: Step, q: Session, c: int, position: Key -> nat, tables: Tables)
    requires Base(x, position) && StepOk(x, l, position) && l.Take?
    ensures var y := Next(x, l, tables);
            IsComing(y, q, c, tables) <==>
            IsComing(x, q, c, tables) || (x.owner == Some(q) && TakesCode(x, l, q, c, position, tables))
  {
    hide FlushEvents, Lifts, Codes, WellEnded;
    var y := Next(x, l, tables);
    FlushLiftsCodes(x.toRelease, l.order, c, position, tables(q));
    if IsComing(x, q, c, tables) {
      var i :| 0 <= i < |x.flushes| && FlushLifts(x.flushes[i], q, c, tables);
      assert y.flushes[i] == x.flushes[i];
    }
    if x.owner == Some(q) && TakesCode(x, l, q, c, position, tables) {
      assert FlushLifts(y.flushes[|x.flushes|], q, c, tables);
    }
    if IsComing(y, q, c, tables) {
      var i :| 0 <= i < |y.flushes| && FlushLifts(y.flushes[i], q, c, tables);
      assert i < |x.flushes| ==> y.flushes[i] == x.flushes[i];
    }
  }

  /** Sending an event takes its own code alone out of what is coming. */
  lemma SendComing(x: Shared, i: nat, q: Session, c: int, tables: Tables)
    requires i < |x.flushes| && x.flushes[i].rest != []
    ensures var f, y := x.flushes[i], Next(x, SendNext(i), tables);
            && (IsComing(y, q, c, tables) ==> IsComing(x, q, c, tables))
            && (IsComing(x, q, c, tables) && !(f.session == q && LiftsCode(f.rest[0], c, tables(q))) ==>
                  IsComing(y, q, c, tables))
            && (f.session == q && Lifts(f.rest[1..], c, tables(q)) ==> IsComing(y, q, c, tables))
  {
    hide Process, Lifts, LiftsCode;
    var f, y := x.flushes[i], Next(x, SendNext(i), tables);
    LiftsFirst(f.rest, c, tables(q));
    if IsComing(y, q, c, tables) {
      var n :| 0 <= n < |y.flushes| && FlushLifts(y.flushes[n], q, c, tables);
      assert FlushLifts(x.flushes[n], q, c, tables);
    }
    if IsComing(x, q, c, tables) && !(f.session == q && LiftsCode(f.rest[0], c, tables(q))) {
      var n :| 0 <= n < |x.flushes| && FlushLifts(x.flushes[n], q, c, tables);
      assert FlushLifts(y.flushes[n], q, c, tables);
    }
    if f.session == q && Lifts(f.rest[1..], c, tables(q)) {
      assert FlushLifts(y.flushes[i], q, c, tables);
    }
  }

  lemma PressIsLifted(rest: seq<Event>, c: int, position: Key -> nat, table: CodeTable)
    requires WellEnded(rest, position) && rest != []
    requires rest[0].kind.KeyPress? && table(rest[0].position) == Some(c)
    ensures Lifts(rest[1..], c, table)
  {
    var k := rest[0].kind.key;
    WellEndedRest(rest, position);
    var j :| 0 <= j < |rest[1..]| && ReleasesKey(rest[1..][j], k);
    assert LiftsCode(rest[1..][j], c, table);
  }

  lemma SentDown(h: Held, e: Event, c: int, table: CodeTable)
    ensures var r := Process(h, e, table);
            && (c in r.peerDown ==> c in h.peerDown || (e.kind.KeyPress? && table(e.position) == Some(c)))
            && (c in h.peerDown ==> c in r.peerDown || LiftsCode(e, c, table))
            && (LiftsCode(e, c, table) ==> c !in r.peerDown)
  {
  }

  /** Away from the owner, sending an event neither leaves a new code behind nor releases one that was left. */
  lemma SendKeepsLeft(x: Shared, i: nat, q: Session, c: int, position: Key -> nat, tables: Tables)
    requires Base(x, position) && StepOk(x, SendNext(i), position)
    ensures Left(Next(x, SendNext(i), tables), q, c, tables) <==> Left(x, q, c, tables)
  {
    hide Process, IsComing, Lifts, WellEnded, LiftsCode;
    var f := x.flushes[i];
    SendIsProcess(x, i, tables);
    SendComing(x, i, q, c, tables);
    if f.session == q {
      SentDown(View(x, q), f.rest[0], c, tables(q));
      FirstLifts(f, i, x, q, c, tables);
      if f.rest[0].kind.KeyPress? && tables(q)(f.rest[0].position) == Some(c) {
        PressIsLifted(f.rest, c, position, tables(q));
      }
    }
  }

  lemma FirstLifts(f: Flush, i: nat, x: Shared, q: Session, c: int, tables: Tables)
    requires i < |x.flushes| && f == x.flushes[i] && f.session == q && f.rest != []
    ensures LiftsCode(f.rest[0], c, tables(q)) || Lifts(f.rest[1..], c, tables(q)) ==> IsComing(x, q, c, tables)
  {
    hide LiftsCode, Lifts;
    LiftsFirst(f.rest, c, tables(q));
    if Lifts(f.rest, c, tables(q)) {
      assert FlushLifts(x.flushes[i], q, c, tables);
    }
  }

  /** Without the grab, or on losing it: what is left after a step was left before it, and is not taken by it. */
  lemma StepLeft(x: Shared, l: Step, q: Session, c: int, position: Key -> nat, tables: Tables)
    requires Base(x, position) && StepOk(x, l, position)
    requires x.owner != Some(q) || Loses(x, l, q)
    ensures Left(Next(x, l, tables), q, c, tables) <==>
            Left(x, q, c, tables) && !(x.owner == Some(q) && TakesCode(x, l, q, c, position, tables))
  {
    hide Process, FlushEvents, WellEnded, Codes, Lifts;
    match l
    case Run(_) => SameFlushes(x, Next(x, l, tables), q, c, tables);
    case KeyEvent(_) => SameFlushes(x, Next(x, l, tables), q, c, tables);
    case Take(_, _) => TakeComing(x, l, q, c, position, tables);
    case SendNext(i) => SendKeepsLeft(x, i, q, c, position, tables);
  }

  lemma SameFlushes(x: Shared, y: Shared, q: Session, c: int, tables: Tables)
    requires x.flushes == y.flushes
    ensures IsComing(x, q, c, tables) <==> IsComing(y, q, c, tables)
  {
  }

  ghost predicate LosesBetween(states: seq<Shared>, steps: seq<Step>, j: nat, i: nat, q: Session)
    requires |states| == |steps| + 1 && i <= |steps|
  {
    exists n :: j < n < i && Loses(states[n], steps[n], q)
  }

  /** Before `i`, step `j` strands a code of `q`, and `q` does not lose the grab again. */
  ghost predicate StrandsLast(states: seq<Shared>, steps: seq<Step>, j: nat, i: nat, q: Session,
                              position: Key -> nat, tables: Tables)
    requires |states| == |steps| + 1 && i <= |steps|
  {
    j < i && Strands(states[j], steps[j], q, position, tables) && !LosesBetween(states, steps, j, i, q)
  }

  lemma {:induction false} RunKeepsCovered(states: seq<Shared>, steps: seq<Step>, i: nat, q: Session,
                                           position: Key -> nat, tables: Tables)
    requires IsRun(states, steps, position, tables) && i < |states| && states[i].owner != Some(q)
    requires forall j: nat :: !StrandsLast(states, steps, j, i, q, position, tables)
    ensures Covered(states[i], q, tables)
  {
    hide Next, Base, StepOk, IsComing, Down, TakesCode;
    if i == 0 {
      NothingDown(q);
    } else {
      var m: nat := i - 1;
      var x, l := states[m], steps[m];
      RunKeepsBase(states, steps, m, position, tables);
      assert StepAt(states, steps, m, position, tables);
      StepOwner(x, l, q, position, tables);
      if x.owner == Some(q) {
        assert !StrandsLast(states, steps, m, i, q, position, tables);
      } else {
        forall j: nat ensures !StrandsLast(states, steps, j, m, q, position, tables) {
          assert !StrandsLast(states, steps, j, i, q, position, tables);
        }
        RunKeepsCovered(states, steps, m, q, position, tables);
      }
      forall c ensures !Left(states[i], q, c, tables) {
        StepLeft(x, l, q, c, position, tables);
      }
    }
  }

  lemma NothingDown(q: Session)
    ensures Down(START, q) == {}
  {
  }

  lemma StepOwner(x: Shared, l: Step, q: Session, position: Key -> nat, tables: Tables)
    requires StepOk(x, l, position)
    ensures x.owner == Some(q) ==> (Next(x, l, tables).owner != Some(q) <==> Loses(x, l, q))
  {
  }

  lemma {:induction false} StrandedStays(states: seq<Shared>, steps: seq<Step>, j: nat, i: nat, q: Session, c: int,
                                         position: Key -> nat, tables: Tables)
    requires IsRun(states, steps, position, tables) && j < i < |states|
    requires Loses(states[j], steps[j], q) && !LosesBetween(states, steps, j, i, q)
    requires Left(states[j], q, c, tables) && !TakesCode(states[j], steps[j], q, c, position, tables)
    ensures states[i].owner == Some(q) || Left(states[i], q, c, tables)
  {
    hide Next, Base, StepOk, Left, TakesCode;
    var x, l := states[i - 1], steps[i - 1];
    RunKeepsBase(states, steps, i - 1, position, tables);
    assert StepAt(states, steps, i - 1, position, tables);
    StepOwner(x, l, q, position, tables);
    if j < i - 1 {
      StrandedStays(states, steps, j, i - 1, q, c, position, tables);
    }
    if x.owner != Some(q) || j == i - 1 {
      StepLeft(x, l, q, c, position, tables);
    }
  }

  /** Once nobody has the grab and all releases are sent, a session's peer is clear exactly if its last loss stranded nothing. */
  lemma PeerUpIff(states: seq<Shared>, steps: seq<Step>, i: nat, q: Session, position: Key -> nat, tables: Tables)
    requires IsRun(states, steps, position, tables) && i < |states| && Quiet(states[i])
    ensures Down(states[i], q) == {} <==> forall j: nat :: !StrandsLast(states, steps, j, i, q, position, tables)
  {
    hide StepAt, Strands, LosesBetween, Down;
    if forall j: nat :: !StrandsLast(states, steps, j, i, q, position, tables) {
      RunKeepsCovered(states, steps, i, q, position, tables);
      CoveredIsUp(states[i], q, tables);
    } else {
      var j: nat :| StrandsLast(states, steps, j, i, q, position, tables);
      LastStrandStays(states, steps, j, i, q, position, tables);
    }
  }

  lemma CoveredIsUp(x: Shared, q: Session, tables: Tables)
    requires Quiet(x) && Covered(x, q, tables)
    ensures Down(x, q) == {}
  {
    hide Down;
    forall c ensures c !in Down(x, q) {
      assert !Left(x, q, c, tables);
    }
  }

  lemma LastStrandStays(states: seq<Shared>, steps: seq<Step>, j: nat, i: nat, q: Session, position: Key -> nat, tables: Tables)
    requires IsRun(states, steps, position, tables) && i < |states| && Quiet(states[i])
    requires StrandsLast(states, steps, j, i, q, position, tables)
    ensures Down(states[i], q) != {}
  {
    hide StepAt, LosesBetween, IsComing, TakesCode, Down;
    var c :| Left(states[j], q, c, tables) && !TakesCode(states[j], steps[j], q, c, position, tables);
    StrandedStays(states, steps, j, i, q, c, position, tables);
    assert Left(states[i], q, c, tables);
  }

  // ---------- where stranded codes come from ----------

  /** Every code down at the owner's peer is a recorded key's, or an event still to be sent releases it. */
  ghost predicate Accounted(x: Shared, q: Session, position: Key -> nat, tables: Tables) {
    forall c :: Left(x, q, c, tables) ==> c in Codes(x.toRelease.Keys, position, tables(q))
  }

  /** A late release for another session takes the owner's own record of a key away. */
  ghost predicate Unrecords(x: Shared, l: Step, q: Session, position: Key -> nat, tables: Tables) {
    && x.owner == Some(q) && l.SendNext? && l.flush < |x.flushes| && x.flushes[l.flush].rest != []
    && x.flushes[l.flush].session != q
    && exists c :: Unrecorded(x, x.flushes[l.flush].rest[0], q, c, position, tables)
  }

  ghost predicate Unrecorded(x: Shared, e: Event, q: Session, c: int, position: Key -> nat, tables: Tables) {
    && e.kind.KeyRelease? && Left(x, q, c, tables)
    && c in Codes(x.toRelease.Keys, position, tables(q))
    && c !in Codes(x.toRelease.Keys - {e.kind.key}, position, tables(q))
  }

  /** The grab is taken over with a code down, the session of a release is gone, or a late release unrecords a key. */
  ghost predicate Disturbs(x: Shared, l: Step, q: Session, position: Key -> nat, tables: Tables) {
    || Unrecords(x, l, q, position, tables)
    || (Strands(x, l, q, position, tables) && !(l.Take? && l.available))
  }

  lemma MoreCodes(a: set<Key>, b: set<Key>, position: Key -> nat, table: CodeTable)
    requires a <= b
    ensures Codes(a, position, table) <= Codes(b, position, table)
  {
    hide CodeOf;
    forall c | c in Codes(a, position, table) ensures c in Codes(b, position, table) {
      var k :| k in a && c in CodeOf(k, position, table);
      assert k in b;
    }
  }

  lemma LessOneKey(keys: set<Key>, k: Key, c: int, position: Key -> nat, table: CodeTable)
    requires c in Codes(keys, position, table) && c !in CodeOf(k, position, table)
    ensures c in Codes(keys - {k}, position, table)
  {
    hide CodeOf;
    var q :| q in keys && c in CodeOf(q, position, table);
    assert q in keys - {k};
  }

  /** An event to the owner records what it puts down, and takes no other code off the record. */
  lemma EventAccounts(h: Held, e: Event, c: int, position: Key -> nat, table: CodeTable)
    requires Positioned(e, position)
    ensures var r := Process(h, e, table);
            c in r.peerDown ==>
              || c in Codes(r.toRelease.Keys, position, table)
              || (c in h.peerDown && c !in Codes(h.toRelease.Keys, position, table))
  {
    hide Codes;
    var r := Process(h, e, table);
    if c in r.peerDown {
      match e.kind
      case NotAKey =>
      case KeyPress(k) =>
        MoreCodes(h.toRelease.Keys, r.toRelease.Keys, position, table);
        if c !in h.peerDown {
          RecordedCode(r.toRelease.Keys, k, c, position, table);
        }
      case KeyRelease(k) =>
        if c in Codes(h.toRelease.Keys, position, table) {
          LessOneKey(h.toRelease.Keys, k, c, position, table);
          assert r.toRelease.Keys == h.toRelease.Keys - {k};
        }
    }
  }

  lemma RecordedCode(keys: set<Key>, k: Key, c: int, position: Key -> nat, table: CodeTable)
    requires k in keys && table(position(k)) == Some(c)
    ensures c in Codes(keys, position, table)
  {
    assert c in CodeOf(k, position, table);
  }

  lemma OthersEventKeepsCodes(h: Held, e: Event, c: int, position: Key -> nat, table: CodeTable, own: CodeTable)
    requires c in Codes(h.toRelease.Keys, position, own)
    requires e.kind.KeyRelease? ==> c in Codes(h.toRelease.Keys - {e.kind.key}, position, own)
    ensures c in Codes(Process(h, e, table).toRelease.Keys, position, own)
  {
    hide Codes;
    var r := Process(h, e, table);
    match e.kind
    case KeyRelease(k) => assert r.toRelease.Keys == h.toRelease.Keys - {k};
    case KeyPress(_) => MoreCodes(h.toRelease.Keys, r.toRelease.Keys, position, own);
    case NotAKey =>
  }

  lemma OwnerKeepsAccounted(x: Shared, l: Step, q: Session, c: int, position: Key -> nat, tables: Tables)
    requires Base(x, position) && StepOk(x, l, position) && x.owner == Some(q) && !Loses(x, l, q)
    requires Accounted(x, q, position, tables) && !Unrecords(x, l, q, position, tables)
    requires Left(Next(x, l, tables), q, c, tables)
    ensures c in Codes(Next(x, l, tables).toRelease.Keys, position, tables(q))
  {
    hide Codes, Process, WellEnded, IsComing;
    var y := Next(x, l, tables);
    match l
    case Run(_) => SameFlushes(x, y, q, c, tables);
    case KeyEvent(e) =>
      SameFlushes(x, y, q, c, tables);
      EventAccounts(View(x, q), e, c, position, tables(q));
    case SendNext(i) =>
      var f := x.flushes[i];
      SendKeepsLeft(x, i, q, c, position, tables);
      FirstPositioned(f.rest, position);
      if f.session == q {
        EventAccounts(View(x, q), f.rest[0], c, position, tables(q));
      } else {
        assert !Unrecorded(x, f.rest[0], q, c, position, tables);
        OthersEventKeepsCodes(View(x, f.session), f.rest[0], c, position, tables(f.session), tables(q));
      }
  }

  /** While nothing disturbs `q`, its peer is covered without the grab and accounted for with it. */
  lemma {:induction false} RunKeepsAccounted(states: seq<Shared>, steps: seq<Step>, i: nat, q: Session,
                                             position: Key -> nat, tables: Tables)
    requires IsRun(states, steps, position, tables) && i < |states|
    requires forall j: nat :: j < i ==> !Disturbs(states[j], steps[j], q, position, tables)
    ensures if states[i].owner == Some(q) then Accounted(states[i], q, position, tables) else Covered(states[i], q, tables)
  {
    hide Next, Base, StepOk, IsComing, Down, Codes, Unrecords;
    if i == 0 {
      NothingDown(q);
    } else {
      var x, l, y := states[i - 1], steps[i - 1], states[i];
      RunKeepsBase(states, steps, i - 1, position, tables);
      RunKeepsAccounted(states, steps, i - 1, q, position, tables);
      assert StepAt(states, steps, i - 1, position, tables);
      StepOwner(x, l, q, position, tables);
      forall c | Left(y, q, c, tables)
        ensures y.owner == Some(q) && c in Codes(y.toRelease.Keys, position, tables(q))
      {
        if x.owner != Some(q) || Loses(x, l, q) {
          StepLeft(x, l, q, c, position, tables);
        } else {
          OwnerKeepsAccounted(x, l, q, c, position, tables);
        }
      }
    }
  }

  /** Nothing is stranded before something disturbs its session. */
  lemma UndisturbedStrandsNothing(states: seq<Shared>, steps: seq<Step>, i: nat, q: Session, position: Key -> nat, tables: Tables)
    requires IsRun(states, steps, position, tables) && i < |steps|
    requires forall j: nat :: j <= i ==> !Disturbs(states[j], steps[j], q, position, tables)
    ensures !Strands(states[i], steps[i], q, position, tables)
  {
    hide IsComing, Codes, Down, StepAt;
    RunKeepsAccounted(states, steps, i, q, position, tables);
    assert !Disturbs(states[i], steps[i], q, position, tables);
  }

  /** A run in which nobody is disturbed leaves no key down anywhere once nobody has the grab and all releases are sent. */
  lemma UndisturbedIsAllUp(states: seq<Shared>, steps: seq<Step>, i: nat, position: Key -> nat, tables: Tables)
    requires IsRun(states, steps, position, tables) && i < |states| && Quiet(states[i])
    requires forall j: nat, q: Session :: j < i ==> !Disturbs(states[j], steps[j], q, position, tables)
    ensures AllUp(states[i])
  {
    hide Down, Disturbs, StepAt, IsComing;
    forall q: Session ensures Down(states[i], q) == {} {
      RunKeepsAccounted(states, steps, i, q, position, tables);
      CoveredIsUp(states[i], q, tables);
    }
  }

  /** A release sent without anything between clears all peers exactly if no other holds a key and the owner's recorded ones. */
  lemma AllUpIffRecorded(states: seq<Shared>, steps: seq<Step>, i: nat, s: Session, order: seq<Key>,
                         position: Key -> nat, tables: Tables)
    requires IsRun(states, steps, position, tables) && i < |states|
    requires states[i].owner == Some(s) && IsOrderOf(order, states[i].toRelease.Keys)
    ensures var x := states[i];
            AllUp(Drained(Next(x, Take(true, order), tables), |x.flushes|, tables)) <==>
            && (forall q: Session :: q != s ==> Down(x, q) == {})
            && Down(x, s) <= Codes(x.toRelease.Keys, position, tables(s))
  {
    hide WellEnded, Codes, Down, Drained, Released;
    RunKeepsBase(states, steps, i, position, tables);
    ReleaseClearsAllIff(states[i], order, position, tables);
    TakeAndDrain(states[i], order, tables);
  }

  // ---------- the maps once all is quiet ----------

  /** An event still to be sent releases the key. */
  ghost predicate IsReleasing(x: Shared, k: Key) {
    exists i :: 0 <= i < |x.flushes| && Releases(x.flushes[i].rest, k)
  }

  /** Without the grab the recorded keys are being released; so are the marked modifiers, unless `marks` is false. */
  ghost predicate Pending(x: Shared, marks: bool) {
    && x.modifiers.Keys == MODIFIERS
    && (marks ==> forall k :: k in MODIFIERS && x.modifiers[k] ==> k in x.toRelease || IsReleasing(x, k))
    && (x.owner.None? ==> forall k :: k in x.toRelease ==> IsReleasing(x, k))
  }

  lemma TakeReleasing(x: Shared, l: Step, k: Key, position: Key -> nat, tables: Tables)
    requires Base(x, position) && StepOk(x, l, position) && l.Take?
    ensures IsReleasing(x, k) || (l.available && k in x.toRelease) ==> IsReleasing(Next(x, l, tables), k)
  {
    hide FlushEvents, Releases, WellEnded;
    var y := Next(x, l, tables);
    FlushShape(x.toRelease, l.order, position);
    if IsReleasing(x, k) {
      var i :| 0 <= i < |x.flushes| && Releases(x.flushes[i].rest, k);
      assert y.flushes[i] == x.flushes[i];
    } else if l.available && k in x.toRelease {
      assert Releases(y.flushes[|x.flushes|].rest, k);
    }
  }

  lemma SendReleasing(x: Shared, i: nat, k: Key, position: Key -> nat, tables: Tables)
    requires Base(x, position) && StepOk(x, SendNext(i), position)
    ensures var e, y := x.flushes[i].rest[0], Next(x, SendNext(i), tables);
            && (IsReleasing(x, k) && !ReleasesKey(e, k) ==> IsReleasing(y, k))
            && (e.kind == KeyPress(k) ==> IsReleasing(y, k))
  {
    hide Releases, WellEnded, Process;
    var e, y := x.flushes[i].rest[0], Next(x, SendNext(i), tables);
    WellEndedRest(x.flushes[i].rest, position);
    if e.kind == KeyPress(k) {
      assert Releases(y.flushes[i].rest, k);
    } else if IsReleasing(x, k) && !ReleasesKey(e, k) {
      var n :| 0 <= n < |x.flushes| && Releases(x.flushes[n].rest, k);
      assert Releases(y.flushes[n].rest, k);
    }
  }

  lemma EventMarks(h: Held, e: Event, k: Key, table: CodeTable)
    requires h.modifiers.Keys == MODIFIERS
    ensures var r := Process(h, e, table);
            && r.modifiers.Keys == MODIFIERS
            && (k in MODIFIERS && r.modifiers[k] ==> !ReleasesKey(e, k) && (h.modifiers[k] || k in r.toRelease))
            && (k in h.toRelease ==> k in r.toRelease || ReleasesKey(e, k))
            && (k in r.toRelease ==> !ReleasesKey(e, k) && (k in h.toRelease || e.kind == KeyPress(k)))
  {
  }

  lemma StepKeepsPending(x: Shared, l: Step, position: Key -> nat, marks: bool, tables: Tables)
    requires Base(x, position) && StepOk(x, l, position) && Pending(x, marks)
    requires marks && l.Take? && !l.available ==> x.toRelease.Keys !! MODIFIERS
    ensures Pending(Next(x, l, tables), marks)
  {
    hide Process, FlushEvents, WellEnded, Releases;
    var y := Next(x, l, tables);
    match l
    case Run(_) => SameReleasing(x, y);
    case KeyEvent(e) =>
      SameReleasing(x, y);
      if x.owner.Some? {
        forall k
          ensures y.modifiers.Keys == MODIFIERS
          ensures marks && k in MODIFIERS && y.modifiers[k] ==> k in y.toRelease || IsReleasing(y, k)
        {
          EventMarks(View(x, x.owner.value), e, k, tables(x.owner.value));
        }
      }
    case Take(_, _) =>
      forall k ensures marks && k in MODIFIERS && y.modifiers[k] ==> IsReleasing(y, k) {
        TakeReleasing(x, l, k, position, tables);
      }
    case SendNext(i) =>
      var f := x.flushes[i];
      forall k
        ensures y.modifiers.Keys == MODIFIERS
        ensures marks && k in MODIFIERS && y.modifiers[k] ==> k in y.toRelease || IsReleasing(y, k)
        ensures x.owner.None? && k in y.toRelease ==> IsReleasing(y, k)
      {
        EventMarks(View(x, f.session), f.rest[0], k, tables(f.session));
        SendReleasing(x, i, k, position, tables);
      }
  }

  lemma SameReleasing(x: Shared, y: Shared)
    requires x.flushes == y.flushes
    ensures forall k :: IsReleasing(x, k) <==> IsReleasing(y, k)
  {
  }

  /** No release of a session that is gone found a modifier recorded. */
  ghost predicate NoMarkLost(states: seq<Shared>, steps: seq<Step>, i: nat)
    requires |states| == |steps| + 1 && i <= |steps|
  {
    forall j: nat :: j < i && steps[j].Take? && !steps[j].available ==> states[j].toRelease.Keys !! MODIFIERS
  }

  lemma {:induction false} RunKeepsPending(states: seq<Shared>, steps: seq<Step>, i: nat, position: Key -> nat,
                                           marks: bool, tables: Tables)
    requires IsRun(states, steps, position, tables) && i < |states| && (marks ==> NoMarkLost(states, steps, i))
    ensures Pending(states[i], marks)
  {
    hide Next, Base, StepOk, IsReleasing;
    if i > 0 {
      RunKeepsBase(states, steps, i - 1, position, tables);
      RunKeepsPending(states, steps, i - 1, position, marks, tables);
      assert StepAt(states, steps, i - 1, position, tables);
      StepKeepsPending(states[i - 1], steps[i - 1], position, marks, tables);
    }
  }

  /** Whatever came between the events of releases: once all is quiet no key is recorded, nor a modifier marked. */
  lemma QuietIsClear(states: seq<Shared>, steps: seq<Step>, i: nat, position: Key -> nat, tables: Tables)
    requires IsRun(states, steps, position, tables) && i < |states| && Quiet(states[i])
    ensures states[i].toRelease == map[]
    ensures NoMarkLost(states, steps, i) ==> states[i].modifiers == NO_MODIFIER
  {
    hide StepAt, NoMarkLost;
    RunKeepsPending(states, steps, i, position, NoMarkLost(states, steps, i), tables);
    var x := states[i];
    forall k ensures !IsReleasing(x, k) {
    }
    assert x.toRelease.Keys == {};
  }

  // ---------- two runs ----------

  function Pressed(position: Key -> nat): Event {
    Event(KeyPress(Plain(0)), position(Plain(0)))
  }

  function Lifted(position: Key -> nat): Event {
    Event(KeyRelease(Plain(0)), position(Plain(0)))
  }

  /** `s` has the grab and its key down. */
  function Holding(s: Session, c: int, position: Key -> nat): Shared {
    Shared(Some(s), map[Plain(0) := Pressed(position)], NO_MODIFIER, map[s := {c}], [])
  }

  /** ... and has just lost it to a release. */
  function Taken(s: Session, c: int, position: Key -> nat): Shared {
    Shared(None, map[], NO_MODIFIER, map[s := {c}], [Flush(s, [Lifted(position)])])
  }

  /** A session that gets the grab back while its key is still recorded has it released after all. */
  lemma ReturnRepairs(s: Session, t: Session, c: int, position: Key -> nat, tables: Tables)
    requires s != t && tables(s)(position(Plain(0))) == Some(c)
    ensures var held := Holding(s, c, position);
            var states := [START, START.(owner := Some(s)), held, held.(owner := Some(t)), held, Taken(s, c, position),
                           Shared(None, map[], NO_MODIFIER, map[s := {}], [Flush(s, [])])];
            var steps := [Run(s), KeyEvent(Pressed(position)), Run(t), Run(s), Take(true, [Plain(0)]), SendNext(0)];
            && IsRun(states, steps, position, tables)
            && Strands(states[2], steps[2], s, position, tables) && Quiet(states[6]) && AllUp(states[6])
  {
    var held, taken := Holding(s, c, position), Taken(s, c, position);
    var last := Shared(None, map[], NO_MODIFIER, map[s := {}], [Flush(s, [])]);
    var states := [START, START.(owner := Some(s)), held, held.(owner := Some(t)), held, taken, last];
    var steps := [Run(s), KeyEvent(Pressed(position)), Run(t), Run(s), Take(true, [Plain(0)]), SendNext(0)];
    RunStep(START, s, position, tables);
    PressStep(states[1], s, c, states[2], position, tables);
    RunStep(states[2], t, position, tables);
    RunStep(states[3], s, position, tables);
    TakeStep(held, s, taken, position, tables);
    LiftStep(taken, last, position, tables);
    HeldIsLeft(held, s, c, tables);
    hide Moves, Left, Codes;
    assert StepAt(states, steps, 0, position, tables);
    assert StepAt(states, steps, 1, position, tables);
    assert StepAt(states, steps, 2, position, tables);
    assert StepAt(states, steps, 3, position, tables);
    assert StepAt(states, steps, 4, position, tables);
    assert StepAt(states, steps, 5, position, tables);
  }

  /** `t` has its own press recorded while the release of `s` is still to be sent. */
  function Both(s: Session, t: Session, b: int, c: int, position: Key -> nat): Shared {
    Taken(s, b, position).(owner := Some(t), toRelease := map[Plain(0) := Pressed(position)], peers := map[s := {b}, t := {c}])
  }

  /** ... and then it has been sent. */
  function Late(s: Session, t: Session, c: int): Shared {
    Shared(Some(t), map[], NO_MODIFIER, map[s := {}, t := {c}], [Flush(s, [])])
  }

  function LateSteps(s: Session, t: Session, position: Key -> nat): seq<Step> {
    var e := Pressed(position);
    [Run(s), KeyEvent(e), Take(true, [Plain(0)]), Run(t), KeyEvent(e), SendNext(0), Take(true, [])]
  }

  function LateStates(s: Session, t: Session, b: int, c: int, position: Key -> nat): seq<Shared> {
    [START, START.(owner := Some(s)), Holding(s, b, position), Taken(s, b, position),
     Taken(s, b, position).(owner := Some(t)), Both(s, t, b, c, position), Late(s, t, c),
     Late(s, t, c).(owner := None, flushes := [Flush(s, []), Flush(t, [])])]
  }

  /**
   A late release strands the next owner's key: `t` presses the key between the take of `s` and its release event,
   which removes the key from the record.
   */
  lemma LateReleaseStrands(s: Session, t: Session, b: int, c: int, position: Key -> nat, tables: Tables)
    requires s != t && tables(s)(position(Plain(0))) == Some(b) && tables(t)(position(Plain(0))) == Some(c)
    ensures var states, steps := LateStates(s, t, b, c, position), LateSteps(s, t, position);
            && IsRun(states, steps, position, tables)
            && Unrecords(states[5], steps[5], t, position, tables) && Strands(states[6], steps[6], t, position, tables)
            && Quiet(states[7]) && Down(states[7], t) == {c}
  {
    LateRun(s, t, b, c, position, tables);
    LateUnrecords(s, t, b, c, position, tables);
    LateStrands(s, t, c, position, tables);
    hide IsRun, Unrecords, Strands;
  }

  lemma LateRun(s: Session, t: Session, b: int, c: int, position: Key -> nat, tables: Tables)
    requires s != t && tables(s)(position(Plain(0))) == Some(b) && tables(t)(position(Plain(0))) == Some(c)
    ensures IsRun(LateStates(s, t, b, c, position), LateSteps(s, t, position), position, tables)
  {
    var states, steps := LateStates(s, t, b, c, position), LateSteps(s, t, position);
    LateMoves(s, t, b, c, position, tables);
    hide Moves, Holding, Taken, Both, Late;
    forall i: nat | i < |steps| ensures StepAt(states, steps, i, position, tables) {
    }
  }

  lemma LateMoves(s: Session, t: Session, b: int, c: int, position: Key -> nat, tables: Tables)
    requires s != t && tables(s)(position(Plain(0))) == Some(b) && tables(t)(position(Plain(0))) == Some(c)
    ensures var states, steps := LateStates(s, t, b, c, position), LateSteps(s, t, position);
            && Moves(states[0], steps[0], states[1], position, tables)
            && Moves(states[1], steps[1], states[2], position, tables)
            && Moves(states[2], steps[2], states[3], position, tables)
            && Moves(states[3], steps[3], states[4], position, tables)
            && Moves(states[4], steps[4], states[5], position, tables)
            && Moves(states[5], steps[5], states[6], position, tables)
            && Moves(states[6], steps[6], states[7], position, tables)
  {
    hide Moves;
    var held, taken := Holding(s, b, position), Taken(s, b, position);
    var both, late := Both(s, t, b, c, position), Late(s, t, c);
    RunStep(START, s, position, tables);
    PressStep(START.(owner := Some(s)), s, b, held, position, tables);
    TakeStep(held, s, taken, position, tables);
    RunStep(taken, t, position, tables);
    PressStep(taken.(owner := Some(t)), t, c, both, position, tables);
    assert Send({b}, Lifted(position), tables(s)) == {};
    assert late.peers == both.peers[s := {}];
    LiftStep(both, late, position, tables);
    EmptyTakeStep(late, t, late.(owner := None, flushes := [Flush(s, []), Flush(t, [])]), position, tables);
  }

  lemma LateUnrecords(s: Session, t: Session, b: int, c: int, position: Key -> nat, tables: Tables)
    requires s != t && tables(t)(position(Plain(0))) == Some(c)
    ensures Unrecords(Both(s, t, b, c, position), SendNext(0), t, position, tables)
  {
    var both := Both(s, t, b, c, position);
    HeldIsLeft(both, t, c, tables);
    NoCodes(position, tables(t));
    RecordedCode({Plain(0)}, Plain(0), c, position, tables(t));
    hide Left, Codes;
    assert both.toRelease.Keys == {Plain(0)} && both.toRelease.Keys - {Plain(0)} == {};
    assert both.flushes[0].rest[0] == Lifted(position);
    assert Unrecorded(both, Lifted(position), t, c, position, tables);
  }

  lemma LateStrands(s: Session, t: Session, c: int, position: Key -> nat, tables: Tables)
    requires s != t
    ensures Strands(Late(s, t, c), Take(true, []), t, position, tables)
  {
    var late := Late(s, t, c);
    HeldIsLeft(late, t, c, tables);
    NoCodes(position, tables(t));
    hide Left, Codes;
    assert late.toRelease.Keys == {};
    assert Left(late, t, c, tables) && !TakesCode(late, Take(true, []), t, c, position, tables);
  }

  lemma HeldIsLeft(x: Shared, s: Session, c: int, tables: Tables)
    requires c in Down(x, s) && forall i :: 0 <= i < |x.flushes| ==> x.flushes[i].session != s
    ensures Left(x, s, c, tables)
  {
  }

  lemma RunStep(x: Shared, s: Session, position: Key -> nat, tables: Tables)
    ensures Moves(x, Run(s), x.(owner := Some(s)), position, tables)
  {
  }

  lemma PressStep(x: Shared, s: Session, c: int, y: Shared, position: Key -> nat, tables: Tables)
    requires x.owner == Some(s) && x.toRelease == map[] && x.modifiers == NO_MODIFIER && Down(x, s) == {}
    requires tables(s)(position(Plain(0))) == Some(c)
    requires y == x.(toRelease := map[Plain(0) := Pressed(position)], peers := x.peers[s := {c}])
    ensures Moves(x, KeyEvent(Pressed(position)), y, position, tables)
  {
    var h := Process(View(x, s), Pressed(position), tables(s));
    assert h.toRelease == map[Plain(0) := Pressed(position)];
    assert h.modifiers == x.modifiers;
    assert h.peerDown == {c};
  }

  lemma TakeStep(x: Shared, s: Session, y: Shared, position: Key -> nat, tables: Tables)
    requires x.owner == Some(s) && x.toRelease == map[Plain(0) := Pressed(position)] && x.flushes == []
    requires y == x.(owner := None, toRelease := map[], flushes := [Flush(s, [Lifted(position)])])
    ensures Moves(x, Take(true, [Plain(0)]), y, position, tables)
  {
    assert FlushEvents(x.toRelease, []) == [];
    assert FlushEvents(x.toRelease, [Plain(0)]) == [Lifted(position)];
    assert x.toRelease.Keys == {Plain(0)};
  }

  lemma EmptyTakeStep(x: Shared, s: Session, y: Shared, position: Key -> nat, tables: Tables)
    requires x.owner == Some(s) && x.toRelease == map[]
    requires y == x.(owner := None, flushes := x.flushes + [Flush(s, [])])
    ensures Moves(x, Take(true, []), y, position, tables)
  {
  }

  lemma LiftStep(x: Shared, y: Shared, position: Key -> nat, tables: Tables)
    requires |x.flushes| == 1 && x.flushes[0].rest == [Lifted(position)] && x.toRelease.Keys <= {Plain(0)}
    requires x.modifiers == NO_MODIFIER
    requires var s := x.flushes[0].session;
             y == x.(toRelease := map[], flushes := [Flush(s, [])],
                     peers := x.peers[s := Send(Down(x, s), Lifted(position), tables(s))])
    ensures Moves(x, SendNext(0), y, position, tables)
  {
    var s := x.flushes[0].session;
    var h := Process(View(x, s), Lifted(position), tables(s));
    assert h.toRelease == map[];
    assert h.modifiers == x.modifiers;
    assert x.flushes[0].rest[1..] == [];
    assert x.flushes[0 := Flush(s, [])] == [Flush(s, [])];
    assert y == Next(x, SendNext(0), tables);
  }
}
