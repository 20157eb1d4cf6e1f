/**
 The quiet window after a local clipboard change (src/clipboard.rs:243-248, 297-334).

 Remote updates wait while a local change newer than every remote apply is less than 750 ms old.
 */
module ClipboardTiming {
  import opened Prelude

  const QUIET: nat := 750

  datatype Marks = Marks(local: Option<int>, remote: Option<int>, opaqueSignature: Option<string>)

  const NO_MARKS := Marks(None, None, None)

  datatype Event =
    | LocalChange(at: int)
    | OpaqueSeen(signature: string, at: int)
    | RemoteApply(at: int)

  function Mark(m: Marks, e: Event): Marks {
    match e
    case LocalChange(at) => m.(opaqueSignature := None, local := Some(at))
    case OpaqueSeen(s, at) => if m.opaqueSignature == Some(s) then m else m.(opaqueSignature := Some(s), local := Some(at))
    case RemoteApply(at) => m.(opaqueSignature := None, remote := Some(at))
  }

  function Delay(m: Marks, now: int): Option<nat> {
    if m.local == None then None
    else if m.remote.Some? && m.local.value <= m.remote.value then None
    else
      var elapsed: nat := Max(0, now - m.local.value);
      if elapsed < QUIET then Some(QUIET - elapsed) else None
  }

  class Timing {
    var lastLocalChangeAt: Option<int>
    var lastRemoteApplyAt: Option<int>
    var lastExternalOpaqueSignature: Option<string>

    function State(): Marks
      reads this
    {
      Marks(lastLocalChangeAt, lastRemoteApplyAt, lastExternalOpaqueSignature)
    }

    constructor ()
      ensures State() == NO_MARKS
    {
      lastLocalChangeAt, lastRemoteApplyAt, lastExternalOpaqueSignature := None, None, None;
    }

    method MarkLocalChange(now: int)
      modifies this
      ensures State() == Mark(old(State()), LocalChange(now))
    {
      lastExternalOpaqueSignature := None;
      lastLocalChangeAt := Some(now);
    }

    method MarkExternalOpaqueChange(signature: string, now: int) returns (changed: bool)
      modifies this
      ensures State() == Mark(old(State()), OpaqueSeen(signature, now))
      ensures changed <==> old(lastExternalOpaqueSignature) != Some(signature)
    {
      if lastExternalOpaqueSignature == Some(signature) {
        return false;
      }
      lastExternalOpaqueSignature := Some(signature);
      lastLocalChangeAt := Some(now);
      return true;
    }

    method MarkRemoteApply(now: int)
      modifies this
      ensures State() == Mark(old(State()), RemoteApply(now))
    {
      lastExternalOpaqueSignature := None;
      lastRemoteApplyAt := Some(now);
    }

    method RemoteUpdateDelay(now: int) returns (delay: Option<nat>)
      ensures delay == Delay(State(), now)
    {
      match lastLocalChangeAt {
        case None => return None;
        case Some(localAt) =>
          if lastRemoteApplyAt.Some? && localAt <= lastRemoteApplyAt.value {
            return None;
          }
          var elapsed := Max(0, now - localAt);
          if elapsed < QUIET {
            return Some(QUIET - elapsed);
          }
          return None;
      }
    }
  }

  // ---------- histories ----------

  function After(events: seq<Event>): Marks {
    if events == [] then NO_MARKS else Mark(After(events[..|events| - 1]), events[|events| - 1])
  }

  predicate Ordered(events: seq<Event>) {
    forall i, j :: 0 <= i <= j < |events| ==> events[i].at <= events[j].at
  }

  /** Event `i` starts a new quiet window: a local change, or an opaque clipboard not seen in the event just before. */
  predicate Moves(events: seq<Event>, i: int) {
    && 0 <= i < |events|
    && !events[i].RemoteApply?
    && (events[i].OpaqueSeen? && i > 0 && events[i - 1].OpaqueSeen? ==> events[i - 1].signature != events[i].signature)
  }

  predicate NewerThanApplies(events: seq<Event>, at: int) {
    forall j :: 0 <= j < |events| && events[j].RemoteApply? ==> events[j].at < at
  }

  /** Some recent local change is newer than every remote apply. */
  ghost predicate Unsettled(events: seq<Event>, now: int) {
    exists i :: Moves(events, i) && now - events[i].at < 750 && NewerThanApplies(events, events[i].at)
  }

  lemma MovesPrefix(events: seq<Event>, n: nat, i: int)
    requires i < n <= |events|
    ensures Moves(events[..n], i) <==> Moves(events, i)
  {
  }

  lemma {:induction false} OpaqueAfter(events: seq<Event>)
    ensures After(events).opaqueSignature ==
            if events != [] && events[|events| - 1].OpaqueSeen? then Some(events[|events| - 1].signature) else None
  {
  }

  lemma LocalStep(events: seq<Event>)
    requires events != []
    ensures var n := |events| - 1;
            After(events).local == if Moves(events, n) then Some(events[n].at) else After(events[..n]).local
  {
    OpaqueAfter(events[..|events| - 1]);
  }

  /** The local mark is the time of the last event that moved the window. */
  lemma {:induction false} LocalAfter(events: seq<Event>)
    requires Ordered(events)
    ensures var m := After(events);
            && (m.local.Some? ==> exists i :: Moves(events, i) && events[i].at == m.local.value)
            && (forall i :: Moves(events, i) ==> m.local.Some? && events[i].at <= m.local.value)
  {
    if events != [] {
      var n := |events| - 1;
      var before := events[..n];
      LocalAfter(before);
      LocalStep(events);
      hide After;
      forall i | i < n ensures Moves(before, i) <==> Moves(events, i) {
        MovesPrefix(events, n, i);
      }
    }
  }

  lemma {:induction false} RemoteAfter(events: seq<Event>)
    requires Ordered(events)
    ensures var m := After(events);
            && (m.remote.Some? ==> exists i :: 0 <= i < |events| && events[i].RemoteApply? && events[i].at == m.remote.value)
            && (forall i :: 0 <= i < |events| && events[i].RemoteApply? ==>
                  m.remote.Some? && events[i].at <= m.remote.value)
  {
    if events != [] {
      RemoteAfter(events[..|events| - 1]);
    }
  }

  /** The timer asks for a delay exactly while the history is unsettled, and for as long as it stays so. */
  lemma DelayIffUnsettled(events: seq<Event>, now: int)
    requires Ordered(events)
    requires forall i :: 0 <= i < |events| ==> events[i].at <= now
    ensures Delay(After(events), now).Some? <==> Unsettled(events, now)
  {
    hide After;
    LocalAfter(events);
    RemoteAfter(events);
    var m := After(events);
    if Delay(m, now).Some? {
      var i :| Moves(events, i) && events[i].at == m.local.value;
      assert NewerThanApplies(events, events[i].at);
    }
  }

  /** With no further marks the delay is the shortest wait after which no delay is left. */
  lemma DelayIsShortest(m: Marks, now: int, wait: nat)
    requires Delay(m, now).Some? && m.local.value <= now
    ensures Delay(m, now + wait) == None <==> wait >= Delay(m, now).value
  {
  }

  predicate Polls(events: seq<Event>, signature: string) {
    forall i :: 0 <= i < |events| ==> events[i].OpaqueSeen? && events[i].signature == signature
  }

  /** Polling an unchanged opaque clipboard any number of times leaves the window where its first sighting put it. */
  lemma {:induction false} PollingKeepsWindow(history: seq<Event>, first: Event, polls: seq<Event>)
    requires first.OpaqueSeen? && Polls(polls, first.signature)
    ensures After(history + [first] + polls) == After(history + [first])
  {
    var start := history + [first];
    if polls == [] {
      assert start + polls == start;
    } else {
      var n := |polls| - 1;
      PollingKeepsWindow(history, first, polls[..n]);
      assert (start + polls)[..|start| + n] == start + polls[..n];
      assert After(start).opaqueSignature == Some(first.signature) by {
        assert start[..|history|] == history;
      }
    }
  }

  /** Remote updates are admitted from 750 ms after the first sighting, in every such run. */
  lemma PollingAdmitsAfterQuiet(history: seq<Event>, first: Event, polls: seq<Event>, now: int)
    requires first.OpaqueSeen? && Polls(polls, first.signature)
    requires Ordered(history + [first] + polls) && first.at + QUIET <= now
    ensures Delay(After(history + [first] + polls), now) == None
  {
    PollingKeepsWindow(history, first, polls);
    var start := history + [first];
    assert Ordered(start) by {
      assert forall i :: 0 <= i < |start| ==> (start + polls)[i] == start[i];
    }
    LocalAfter(start);
    if After(start).local.Some? {
      var i :| Moves(start, i) && start[i].at == After(start).local.value;
      assert start[i].at <= start[|history|].at == first.at;
    }
  }

  /** A sighting restarts the window exactly when the event before it is not a sighting of the same clipboard. */
  lemma SightingRestartsWindow(history: seq<Event>, seen: Event)
    requires seen.OpaqueSeen?
    ensures Moves(history + [seen], |history|) <==>
            !(history != [] && history[|history| - 1].OpaqueSeen? && history[|history| - 1].signature == seen.signature)
    ensures After(history + [seen]) ==
            if Moves(history + [seen], |history|)
            then After(history).(local := Some(seen.at), opaqueSignature := Some(seen.signature))
            else After(history)
  {
    assert (history + [seen])[..|history|] == history;
    OpaqueAfter(history);
  }
}
