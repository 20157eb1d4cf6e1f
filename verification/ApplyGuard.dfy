/**
 The guard against applying the same remote clipboard twice (src/clipboard.rs:256-294, 578-596).

 Signatures come from PayloadSignature, so what the guard compares are payloads up to owner markers.
 */
module ApplyGuard {
  import opened Prelude
  import opened Lists
  import opened ClipboardItems
  import PayloadSignature

  const ECHO_SUPPRESS: nat := 2000

  datatype Record = Record(side: Side, signature: seq<Byte>, observedAt: int)

  /** `now.saturating_duration_since(earlier)`. */
  function Elapsed(earlier: int, now: int): nat {
    if earlier <= now then now - earlier else 0
  }

  predicate Suppresses(last: Option<Record>, side: Side, signature: seq<Byte>, now: int) {
    && last.Some?
    && last.value.side == side
    && last.value.signature == signature
    && Elapsed(last.value.observedAt, now) < ECHO_SUPPRESS
  }

  class RemoteClipboardApplyGuard {
    var last: Option<Record>

    constructor ()
      ensures last == None
    {
      last := None;
    }

    method ShouldSkip(side: Side, signature: seq<Byte>, now: int) returns (skip: bool)
      modifies this
      ensures skip == Suppresses(old(last), side, signature, now)
      ensures last == Some(Record(side, signature, now))
    {
      match last {
        case Some(record) =>
          if record.side == side && record.signature == signature && Elapsed(record.observedAt, now) < ECHO_SUPPRESS {
            last := Some(record.(observedAt := now));
            return true;
          }
        case None =>
      }
      last := Some(Record(side, signature, now));
      return false;
    }
  }

  // ---------- whole runs of calls ----------

  datatype Call = Call(side: Side, data: seq<Item>, at: int)

  function Observed(call: Call): Record {
    Record(call.side, PayloadSignature.Signature(call.data), call.at)
  }

  /** What the guard answers to each call, starting from `last`. */
  function Verdicts(last: Option<Record>, calls: seq<Call>): (r: seq<bool>)
    ensures |r| == |calls|
    decreases |calls|
  {
    if calls == [] then []
    else
      var record := Observed(calls[0]);
      [Suppresses(last, record.side, record.signature, record.observedAt)] + Verdicts(Some(record), calls[1..])
  }

  lemma VerdictsFrom(last: Option<Record>, calls: seq<Call>, i: nat)
    requires i < |calls|
    ensures var record := Observed(calls[i]);
            Verdicts(last, calls[i..]) ==
            [Suppresses(last, record.side, record.signature, record.observedAt)] + Verdicts(Some(record), calls[i + 1..])
  {
    hide Suppresses, Observed;
    assert calls[i..][1..] == calls[i + 1..];
  }

  lemma NoVerdicts(last: Option<Record>, calls: seq<Call>)
    requires calls == []
    ensures Verdicts(last, calls) == []
  {
  }

  /** One guard object fed a whole run answers as `Verdicts` says. */
  method Feed(guard: RemoteClipboardApplyGuard, calls: seq<Call>) returns (skips: seq<bool>)
    modifies guard
    ensures skips == Verdicts(old(guard.last), calls)
  {
    hide Verdicts, Suppresses;
    skips := [];
    assert calls[0..] == calls;
    for i := 0 to |calls|
      invariant skips + Verdicts(guard.last, calls[i..]) == Verdicts(old(guard.last), calls)
    {
      VerdictsFrom(guard.last, calls, i);
      var signature := PayloadSignature.BuildSignature(calls[i].data);
      var skip := guard.ShouldSkip(calls[i].side, signature, calls[i].at);
      Assoc(skips, [skip], Verdicts(guard.last, calls[i + 1..]));
      skips := skips + [skip];
    }
    NoVerdicts(guard.last, calls[|calls|..]);
  }

  predicate SamePayload(a: Call, b: Call) {
    a.side == b.side && WithoutMarkers(a.data) == WithoutMarkers(b.data)
  }

  /** `now` repeats `before` closely enough to be dropped. */
  predicate Repeats(before: Call, now: Call) {
    SamePayload(before, now) && now.at - before.at < 2000
  }

  predicate AllFit(calls: seq<Call>) {
    forall i :: 0 <= i < |calls| ==> PayloadSignature.Fits(calls[i].data)
  }

  lemma {:induction false} VerdictAt(last: Option<Record>, calls: seq<Call>, i: nat)
    requires i < |calls|
    ensures var c := Observed(calls[i]);
            Verdicts(last, calls)[i] ==
            Suppresses(if i == 0 then last else Some(Observed(calls[i - 1])), c.side, c.signature, c.observedAt)
    decreases i
  {
    hide Suppresses, Observed;
    if i > 0 {
      VerdictAt(Some(Observed(calls[0])), calls[1..], i - 1);
    }
  }

  /** A call is skipped exactly when the call just before it repeats it, whatever happened earlier. */
  lemma SkippedIffRepeat(calls: seq<Call>, i: nat)
    requires AllFit(calls) && i < |calls|
    ensures Verdicts(None, calls)[i] <==> i > 0 && Repeats(calls[i - 1], calls[i])
  {
    hide PayloadSignature.Signature, PayloadSignature.ItemFits, WithoutMarkers;
    VerdictAt(None, calls, i);
    if i > 0 {
      PayloadSignature.SignatureIdentifiesPayload(calls[i - 1].data, calls[i].data);
    }
  }

  /** Corollary: a steady stream of one payload stays suppressed however long it lasts. */
  lemma SteadyRepeatsStaySuppressed(calls: seq<Call>, i: nat)
    requires AllFit(calls) && 0 < i < |calls|
    requires forall j :: 0 < j < |calls| ==> Repeats(calls[j - 1], calls[j])
    ensures Verdicts(None, calls)[i]
  {
    SkippedIffRepeat(calls, i);
  }

  /** The latest call up to `i` that was let through. */
  function LastThrough(skips: seq<bool>, i: nat): nat
    requires i < |skips|
  {
    if i == 0 || !skips[i] then i else LastThrough(skips, i - 1)
  }

  /**
   Suppression never loses an update: the last payload let through equals the last payload offered.
   */
  lemma {:induction false} NothingIsLost(calls: seq<Call>, i: nat)
    requires AllFit(calls) && i < |calls|
    ensures var skips := Verdicts(None, calls);
            var k := LastThrough(skips, i);
            k <= i && !skips[k] && SamePayload(calls[k], calls[i]) && forall j :: k < j <= i ==> skips[j]
  {
    SkippedIffRepeat(calls, i);
    if Verdicts(None, calls)[i] {
      NothingIsLost(calls, i - 1);
    }
  }
}
