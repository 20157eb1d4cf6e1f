/**
 Keys the remote side must be told to release (src/keyboard.rs: TO_RELEASE and MODIFIERS_STATE).

 `KeyTracker` holds the two maps the process keeps, and, for map mode, the set of key codes the
 peer believes to be down after everything sent to it so far.
 */
module HeldKeys {
  import opened Prelude
  import opened Lists

  datatype Key =
    | ShiftLeft | ShiftRight | ControlLeft | ControlRight | Alt | AltGr | MetaLeft | MetaRight
    | Plain(id: nat)

  const MODIFIERS: set<Key> :=
    {ShiftLeft, ShiftRight, ControlLeft, ControlRight, Alt, AltGr, MetaLeft, MetaRight}

  datatype EventType = KeyPress(key: Key) | KeyRelease(key: Key) | NotAKey

  datatype Event = Event(kind: EventType, position: nat)

  datatype Held = Held(toRelease: map<Key, Event>, modifiers: map<Key, bool>, peerDown: set<int>)

  /** Position code to the peer's key code; None where the peer has no such key. */
  type CodeTable = nat -> Option<int>

  const NO_MODIFIER: map<Key, bool> := map k | k in MODIFIERS :: false

  const ALL_UP := Held(map[], NO_MODIFIER, {})

  predicate IsLongPress(h: Held, e: Event) {
    e.kind.KeyPress? && e.kind.key in h.modifiers && h.modifiers[e.kind.key]
  }

  function UpdateModifiers(m: map<Key, bool>, e: Event): map<Key, bool> {
    match e.kind
    case KeyPress(k) => if k in m then m[k := true] else m
    case KeyRelease(k) => if k in m then m[k := false] else m
    case NotAKey => m
  }

  function UpdateToRelease(m: map<Key, Event>, e: Event): map<Key, Event> {
    match e.kind
    case KeyPress(k) => m[k := e]
    case KeyRelease(k) => m - {k}
    case NotAKey => m
  }

  /** What the peer holds after the map-mode key event for `e`, if the table has a code for it. */
  function Send(peer: set<int>, e: Event, table: CodeTable): set<int> {
    match (e.kind, table(e.position))
    case (KeyPress(_), Some(code)) => peer + {code}
    case (KeyRelease(_), Some(code)) => peer - {code}
    case _ => peer
  }

  function Process(h: Held, e: Event, table: CodeTable): Held {
    if IsLongPress(h, e) then h
    else Held(UpdateToRelease(h.toRelease, e), UpdateModifiers(h.modifiers, e), Send(h.peerDown, e, table))
  }

  function ProcessAll(h: Held, es: seq<Event>, table: CodeTable): Held {
    if es == [] then h else Process(ProcessAll(h, es[..|es| - 1], table), es[|es| - 1], table)
  }

  /** The events that release key `k`: its stored press event turned round, and once more for Alt. */
  function ReleaseEvents(k: Key, pressed: Event): seq<Event> {
    var up := pressed.(kind := KeyRelease(k));
    if k == Alt || k == AltGr then [up, pressed.(kind := KeyPress(k)), up] else [up]
  }

  function FlushEvents(taken: map<Key, Event>, order: seq<Key>): seq<Event>
    requires forall k :: k in order ==> k in taken
  {
    if order == [] then []
    else FlushEvents(taken, order[..|order| - 1]) + ReleaseEvents(order[|order| - 1], taken[order[|order| - 1]])
  }

  class KeyTracker {
    var toRelease: map<Key, Event>
    var modifiers: map<Key, bool>
    var peerDown: set<int>

    constructor ()
      ensures State() == ALL_UP
    {
      toRelease, modifiers, peerDown := map[], NO_MODIFIER, {};
    }

    function State(): Held
      reads this
    {
      Held(toRelease, modifiers, peerDown)
    }

    method ProcessEvent(e: Event, table: CodeTable)
      modifies this
      ensures State() == Process(old(State()), e, table)
    {
      if e.kind.KeyPress? && e.kind.key in modifiers && modifiers[e.kind.key] {
        return;
      }
      match e.kind {
        case KeyPress(k) =>
          if k in modifiers {
            modifiers := modifiers[k := true];
          }
          toRelease := toRelease[k := e];
        case KeyRelease(k) =>
          if k in modifiers {
            modifiers := modifiers[k := false];
          }
          toRelease := toRelease - {k};
        case NotAKey =>
      }
      peerDown := Send(peerDown, e, table);
    }

    /** One round of the release loop: the key goes up, and Alt once more down and up. */
    method ReleaseKey(k: Key, pressed: Event, table: CodeTable)
      modifies this
      ensures State() == ProcessAll(old(State()), ReleaseEvents(k, pressed), table)
    {
      ghost var start := State();
      var up := pressed.(kind := KeyRelease(k));
      ProcessEvent(up, table);
      ProcessAllSnoc(start, [], up, table);
      assert [] + [up] == [up];
      if k == Alt || k == AltGr {
        var down := pressed.(kind := KeyPress(k));
        ProcessEvent(down, table);
        ProcessEvent(up, table);
        ProcessAllSnoc(start, [up], down, table);
        ProcessAllSnoc(start, [up, down], up, table);
        assert [up] + [down] == [up, down] && [up, down] + [up] == [up, down, up];
      }
    }

    /** Takes the map and releases its keys in whatever order the map yields them. */
    method ReleaseRemoteKeys(available: bool, table: CodeTable) returns (ghost order: seq<Key>)
      modifies this
      ensures available ==> IsOrderOf(order, old(toRelease).Keys)
      ensures available ==>
                State() == ProcessAll(old(State()).(toRelease := map[]), FlushEvents(old(toRelease), order), table)
      ensures !available ==> State() == old(State()).(toRelease := map[])
    {
      var taken := toRelease;
      toRelease := map[];
      order := [];
      if !available {
        return;
      }
      ghost var start := State();
      var todo := taken.Keys;
      while todo != {}
        invariant todo <= taken.Keys
        invariant IsOrderOf(order, taken.Keys - todo)
        invariant State() == ProcessAll(start, FlushEvents(taken, order), table)
        decreases |todo|
      {
        var k :| k in todo;
        ReleaseKey(k, taken[k], table);
        ProcessAllConcat(start, FlushEvents(taken, order), ReleaseEvents(k, taken[k]), table);
        OrderSnoc(taken, order, k, taken.Keys - todo);
        order := order + [k];
        assert taken.Keys - (todo - {k}) == (taken.Keys - todo) + {k};
        todo := todo - {k};
      }
      assert taken.Keys - todo == taken.Keys;
    }
  }

  lemma ProcessAllSnoc(h: Held, es: seq<Event>, e: Event, table: CodeTable)
    ensures ProcessAll(h, es + [e], table) == Process(ProcessAll(h, es, table), e, table)
  {
    assert (es + [e])[..|es|] == es;
  }

  /** `order` lists every key of `keys` exactly once. */
  ghost predicate IsOrderOf(order: seq<Key>, keys: set<Key>) {
    && (forall k :: k in order <==> k in keys)
    && (forall i, j :: 0 <= i < j < |order| ==> order[i] != order[j])
  }

  lemma OrderSnoc(taken: map<Key, Event>, order: seq<Key>, k: Key, keys: set<Key>)
    requires IsOrderOf(order, keys) && keys <= taken.Keys && k in taken && k !in keys
    ensures IsOrderOf(order + [k], keys + {k})
    ensures FlushEvents(taken, order + [k]) == FlushEvents(taken, order) + ReleaseEvents(k, taken[k])
  {
    assert (order + [k])[..|order|] == order;
  }

  // ---------- what every event keeps ----------

  /** Each modifier is marked down exactly when it is in the to-release map. */
  predicate Tracked(h: Held) {
    h.modifiers.Keys == MODIFIERS && forall k :: k in MODIFIERS ==> (h.modifiers[k] <==> k in h.toRelease)
  }

  /** Events carry the position code of their key. */
  predicate Positioned(e: Event, position: Key -> nat) {
    e.kind.NotAKey? || e.position == position(e.kind.key)
  }

  /** Everything the peer holds down is the code of some key in `keys`. */
  ghost predicate PeerWithin(peer: set<int>, keys: set<Key>, position: Key -> nat, table: CodeTable) {
    forall c :: c in peer ==> exists k :: k in keys && table(position(k)) == Some(c)
  }

  ghost predicate StoredPositioned(m: map<Key, Event>, position: Key -> nat) {
    forall k :: k in m ==> m[k].position == position(k)
  }

  ghost predicate Inv(h: Held, position: Key -> nat, table: CodeTable) {
    && Tracked(h)
    && StoredPositioned(h.toRelease, position)
    && PeerWithin(h.peerDown, h.toRelease.Keys, position, table)
  }

  lemma EventKeepsInv(h: Held, e: Event, position: Key -> nat, table: CodeTable)
    requires Inv(h, position, table) && Positioned(e, position)
    ensures Inv(Process(h, e, table), position, table)
  {
    var h' := Process(h, e, table);
    forall c | c in h'.peerDown
      ensures exists k :: k in h'.toRelease.Keys && table(position(k)) == Some(c)
    {
      if c in h.peerDown {
        var k :| k in h.toRelease.Keys && table(position(k)) == Some(c);
        assert k in h'.toRelease.Keys;
      } else {
        assert e.kind.key in h'.toRelease.Keys;
      }
    }
  }

  // ---------- releasing everything ----------

  /** A flush in progress: nothing is recorded, and only keys still to come may be down. */
  ghost predicate Flushing(h: Held, rest: set<Key>, position: Key -> nat, table: CodeTable) {
    && h.toRelease == map[]
    && h.modifiers.Keys == MODIFIERS
    && (forall k :: k in MODIFIERS && h.modifiers[k] ==> k in rest)
    && PeerWithin(h.peerDown, rest, position, table)
  }

  lemma ReleaseOneKey(h: Held, k: Key, pressed: Event, rest: set<Key>, position: Key -> nat, table: CodeTable)
    requires Flushing(h, rest + {k}, position, table) && pressed.position == position(k)
    ensures Flushing(ProcessAll(h, ReleaseEvents(k, pressed), table), rest, position, table)
  {
    var up, down := pressed.(kind := KeyRelease(k)), pressed.(kind := KeyPress(k));
    var h1 := Process(h, up, table);
    ProcessAllSnoc(h, [], up, table);
    assert [] + [up] == [up];
    ReleaseLeavesRest(h, k, up, rest, position, table);
    if k == Alt || k == AltGr {
      var h2 := Process(h1, down, table);
      var h3 := Process(h2, up, table);
      ProcessAllSnoc(h, [up], down, table);
      ProcessAllSnoc(h, [up, down], up, table);
      assert [up] + [down] == [up, down] && [up, down] + [up] == [up, down, up];
      assert h3.toRelease == map[];
      assert h3.peerDown <= h1.peerDown;
    }
  }

  lemma ReleaseLeavesRest(h: Held, k: Key, up: Event, rest: set<Key>, position: Key -> nat, table: CodeTable)
    requires Flushing(h, rest + {k}, position, table)
    requires up.kind == KeyRelease(k) && up.position == position(k)
    ensures Flushing(Process(h, up, table), rest, position, table)
  {
    var h' := Process(h, up, table);
    forall c | c in h'.peerDown
      ensures exists q :: q in rest && table(position(q)) == Some(c)
    {
      var q :| q in rest + {k} && table(position(q)) == Some(c);
      assert q in rest;
    }
  }

  lemma ProcessAllConcat(h: Held, a: seq<Event>, b: seq<Event>, table: CodeTable)
    ensures ProcessAll(h, a + b, table) == ProcessAll(ProcessAll(h, a, table), b, table)
  {
    if b == [] {
      assert a + b == a;
    } else {
      assert (a + b)[..|a + b| - 1] == a + b[..|b| - 1];
      ProcessAllConcat(h, a, b[..|b| - 1], table);
    }
  }

  lemma {:induction false} FlushPrefix(h: Held, taken: map<Key, Event>, order: seq<Key>, rest: set<Key>,
                                       position: Key -> nat, table: CodeTable)
    requires StoredPositioned(taken, position)
    requires forall k :: k in order ==> k in taken
    requires Flushing(h, (set k | k in order) + rest, position, table)
    ensures Flushing(ProcessAll(h, FlushEvents(taken, order), table), rest, position, table)
  {
    if order == [] {
      assert (set k | k in order) + rest == rest;
    } else {
      var k, front := order[|order| - 1], order[..|order| - 1];
      assert (set q | q in order) + rest == (set q | q in front) + (rest + {k});
      FlushPrefix(h, taken, front, rest + {k}, position, table);
      ReleaseOneKey(ProcessAll(h, FlushEvents(taken, front), table), k, taken[k], rest, position, table);
      ProcessAllConcat(h, FlushEvents(taken, front), ReleaseEvents(k, taken[k]), table);
    }
  }

  /** Flushing the taken map, in any order, leaves both structures clear and no key down at the peer. */
  lemma FlushClearsAll(h: Held, order: seq<Key>, position: Key -> nat, table: CodeTable)
    requires Inv(h, position, table) && IsOrderOf(order, h.toRelease.Keys)
    ensures ProcessAll(h.(toRelease := map[]), FlushEvents(h.toRelease, order), table) == ALL_UP
  {
    assert (set k | k in order) + {} == h.toRelease.Keys;
    FlushPrefix(h.(toRelease := map[]), h.toRelease, order, {}, position, table);
    var last := ProcessAll(h.(toRelease := map[]), FlushEvents(h.toRelease, order), table);
    assert last.modifiers == NO_MODIFIER;
    assert forall c :: c !in last.peerDown;
  }

  /** The map is taken and nobody is left to send it to. */
  function Forget(h: Held): Held {
    h.(toRelease := map[])
  }

  /** Losing the grab of a vanished session keeps modifiers tracked exactly when none was held. */
  lemma LostWithoutSession(h: Held)
    requires Tracked(h)
    ensures Tracked(Forget(h)) <==> h.toRelease.Keys !! MODIFIERS
  {
    var h' := Forget(h);
    if !(h.toRelease.Keys !! MODIFIERS) {
      var k :| k in h.toRelease.Keys && k in MODIFIERS;
      assert h'.modifiers[k] && k !in h'.toRelease;
    }
  }

  /** ... and a modifier left marked swallows the next press of that key. */
  lemma StuckModifierSwallowsPress(h: Held, k: Key, e: Event, table: CodeTable)
    requires Tracked(h) && k in MODIFIERS && k in h.toRelease && e.kind == KeyPress(k)
    ensures Process(Forget(h), e, table) == Forget(h)
  {
  }

  // ---------- single keys ----------

  /** A press of a modifier that is down already is dropped; any other press goes through. */
  lemma PressDroppedIffModifierDown(h: Held, k: Key, e: Event, table: CodeTable)
    requires Tracked(h) && e.kind == KeyPress(k)
    ensures var r := Process(h, e, table);
            if !k.Plain? && k in h.toRelease then r == h
            else r.toRelease == h.toRelease[k := e] && r.peerDown == Send(h.peerDown, e, table)
  {
  }

  /** A release, of any key at any time, takes the key out of the map and goes to the peer. */
  lemma ReleaseGoesThrough(h: Held, k: Key, e: Event, table: CodeTable)
    requires e.kind == KeyRelease(k)
    ensures var r := Process(h, e, table); r.toRelease == h.toRelease - {k} && r.peerDown == Send(h.peerDown, e, table)
  {
  }

  predicate IsAbout(k: Key, e: Event) {
    e.kind == KeyPress(k) || e.kind == KeyRelease(k)
  }

  function About(k: Key): Event -> bool {
    e => IsAbout(k, e)
  }

  /** The key goes up; Alt and AltGr go down and up once more. */
  function SentFor(k: Key, position: nat): seq<Event> {
    if k == Alt || k == AltGr then
      [Event(KeyRelease(k), position), Event(KeyPress(k), position), Event(KeyRelease(k), position)]
    else [Event(KeyRelease(k), position)]
  }

  lemma AboutOneKey(q: Key, pressed: Event, k: Key)
    ensures Keep(About(k), ReleaseEvents(q, pressed)) == if q == k then SentFor(k, pressed.position) else []
  {
    var es := ReleaseEvents(q, pressed);
    if q == k {
      KeepAll(About(k), es);
    } else {
      KeepNothing(About(k), es);
    }
  }

  lemma FlushSnoc(taken: map<Key, Event>, order: seq<Key>)
    requires order != [] && forall q :: q in order ==> q in taken
    ensures var q, front := order[|order| - 1], order[..|order| - 1];
            && order == front + [q]
            && FlushEvents(taken, order) == FlushEvents(taken, front) + ReleaseEvents(q, taken[q])
  {
  }

  /** Every key taken is sent its events once, in whatever order of keys. */
  lemma {:induction false} EachKeyIsReleased(taken: map<Key, Event>, order: seq<Key>, k: Key)
    requires forall q :: q in order ==> q in taken
    requires forall i, j :: 0 <= i < j < |order| ==> order[i] != order[j]
    ensures Keep(About(k), FlushEvents(taken, order)) == if k in order then SentFor(k, taken[k].position) else []
  {
    hide ReleaseEvents, About, SentFor;
    if order != [] {
      var q, front := order[|order| - 1], order[..|order| - 1];
      EachKeyIsReleased(taken, front, k);
      AboutOneKey(q, taken[q], k);
      FlushSnoc(taken, order);
      hide FlushEvents, Keep;
      KeepConcat(About(k), FlushEvents(taken, front), ReleaseEvents(q, taken[q]));
      assert q !in front;
    }
  }

  /** Nothing is sent about other keys. */
  lemma {:induction false} OnlyTakenKeysAreSent(taken: map<Key, Event>, order: seq<Key>, e: Event)
    requires (forall q :: q in order ==> q in taken) && e in FlushEvents(taken, order)
    ensures exists k :: k in order && IsAbout(k, e)
  {
    var q, front := order[|order| - 1], order[..|order| - 1];
    if e in FlushEvents(taken, front) {
      OnlyTakenKeysAreSent(taken, front, e);
    } else {
      assert e in ReleaseEvents(q, taken[q]) && IsAbout(q, e);
    }
  }
}
