/** Runs of the clipboard relay over a whole chain, in every delivery order. */
module ClipboardChain {
  import opened Prelude
  import opened Lists
  import opened ClipboardItems
  import opened FormatNames
  import opened ClipboardRelay

  /** A listener: the machine and the side on which it watches the clipboard. */
  datatype Ear = Ear(at: nat, side: Side)

  datatype Message = Message(to: nat, side: Side, data: seq<Item>)

  /** `writes` lists the machines whose clipboard was written, in order. */
  datatype State = State(clips: seq<seq<Item>>, pending: set<Ear>, inflight: multiset<Message>, writes: seq<nat>)

  datatype Label = Listen(ear: Ear) | Deliver(message: Message)

  /** A host listener sends to the next machine, where the clipboard is applied as a client, and the other way round. */
  function Sent(n: nat, ear: Ear, read: seq<Item>): multiset<Message> {
    if read == [] then multiset{}
    else if ear.side == Host && ear.at + 1 < n then multiset{Message(ear.at + 1, Client, Keep(OnWire, read))}
    else if ear.side == Client && ear.at > 0 then multiset{Message(ear.at - 1, Host, Keep(OnWire, read))}
    else multiset{}
  }

  predicate Enabled(s: State, l: Label) {
    match l
    case Listen(ear) => ear in s.pending && ear.at < |s.clips|
    case Deliver(m) => m in s.inflight && m.to < |s.clips|
  }

  function Next(s: State, l: Label): State
    requires Enabled(s, l)
  {
    match l
    case Listen(ear) =>
      s.(pending := s.pending - {ear},
         inflight := s.inflight + Sent(|s.clips|, ear, ReadForSide(s.clips[ear.at], ear.side)))
    case Deliver(m) =>
      var t := s.(inflight := s.inflight - multiset{m});
      match Incoming(m.data, m.side)
      case None => t
      case Some(clip) =>
        t.(clips := s.clips[m.to := clip],
           pending := s.pending + {Ear(m.to, Host), Ear(m.to, Client)},
           writes := s.writes + [m.to])
  }

  /** One unmarked copy has just been made at `origin`. */
  predicate Copied(s: State, origin: nat, clip: seq<Item>) {
    && origin < |s.clips| && s.clips[origin] == clip && Unmarked(clip)
    && s.pending == {Ear(origin, Host), Ear(origin, Client)}
    && s.inflight == multiset{} && s.writes == []
  }

  // ---------- the part of the chain that has the copy ----------

  /** Machines `lo` to `hi` have the copy; a message is under way past either end where the flag says so. */
  datatype Reach = Reach(lo: nat, hi: nat, left: bool, right: bool)

  function Carried(clip: seq<Item>, origin: nat, i: nat): seq<Item> {
    if i == origin then clip else Cargo(clip) + [Marker(if i > origin then Client else Host)]
  }

  function LeftMessage(r: Reach, cargo: seq<Item>): Message {
    Message(if r.lo > 0 then r.lo - 1 else 0, Host, cargo)
  }

  function RightMessage(r: Reach, cargo: seq<Item>): Message {
    Message(r.hi + 1, Client, cargo)
  }

  /** Nothing is under way but the messages the flags announce, once each. */
  ghost predicate UnderWay(inflight: multiset<Message>, r: Reach, cargo: seq<Item>) {
    forall m :: inflight[m] ==
      if (m == LeftMessage(r, cargo) && r.left) || (m == RightMessage(r, cargo) && r.right) then 1 else 0
  }

  /** At either end either the message is out or the listener has still to read. */
  predicate Fronts(s: State, r: Reach) {
    && (r.right ==> r.hi + 1 < |s.clips| && Ear(r.hi, Host) !in s.pending)
    && (r.left ==> r.lo > 0 && Ear(r.lo, Client) !in s.pending)
    && (r.hi + 1 < |s.clips| ==> r.right || Ear(r.hi, Host) in s.pending)
    && (r.lo > 0 ==> r.left || Ear(r.lo, Client) in s.pending)
  }

  /** A listener between the ends has either read already or is on the side that wrote the clipboard. */
  predicate Idle(r: Reach, origin: nat, ear: Ear) {
    && r.lo <= ear.at <= r.hi
    && (ear.side == Host ==> ear.at < origin || ear.at == r.hi)
    && (ear.side == Client ==> ear.at > origin || ear.at == r.lo)
  }

  ghost predicate WrittenOnce(writes: seq<nat>, lo: nat, hi: nat, origin: nat) {
    && lo <= hi && |writes| == hi - lo
    && (forall i :: i in writes <==> lo <= i <= hi && i != origin)
    && (forall j, k :: 0 <= j < k < |writes| ==> writes[j] != writes[k])
  }

  predicate HaveCopy(clips: seq<seq<Item>>, origin: nat, clip: seq<Item>, lo: nat, hi: nat) {
    hi < |clips| && forall i: nat :: lo <= i <= hi ==> clips[i] == Carried(clip, origin, i)
  }

  lemma WriteRight(writes: seq<nat>, lo: nat, hi: nat, origin: nat)
    requires WrittenOnce(writes, lo, hi, origin) && lo <= origin <= hi
    ensures WrittenOnce(writes + [hi + 1], lo, hi + 1, origin)
  {
    var x, more := hi + 1, writes + [hi + 1];
    assert x !in writes;
    assert forall k :: 0 <= k < |writes| ==> writes[k] in writes && more[k] == writes[k];
    assert forall k: nat :: k in more <==> k in writes || k == x;
  }

  lemma WriteLeft(writes: seq<nat>, lo: nat, hi: nat, origin: nat)
    requires WrittenOnce(writes, lo, hi, origin) && 0 < lo <= origin <= hi
    ensures WrittenOnce(writes + [lo - 1], lo - 1, hi, origin)
  {
    var x, more := lo - 1, writes + [lo - 1];
    assert x !in writes;
    assert forall k :: 0 <= k < |writes| ==> writes[k] in writes && more[k] == writes[k];
    assert forall k: nat :: k in more <==> k in writes || k == x;
  }

  ghost predicate Spread(s: State, origin: nat, clip: seq<Item>, r: Reach) {
    && r.lo <= origin <= r.hi < |s.clips|
    && HaveCopy(s.clips, origin, clip, r.lo, r.hi)
    && UnderWay(s.inflight, r, Cargo(clip))
    && Fronts(s, r)
    && (forall ear :: ear in s.pending ==> Idle(r, origin, ear))
    && WrittenOnce(s.writes, r.lo, r.hi, origin)
  }

  /** What a listener reads from a machine that has the copy. */
  lemma ReadsCarried(clip: seq<Item>, origin: nat, ear: Ear)
    requires Unmarked(clip) && Cargo(clip) != []
    ensures var read := ReadForSide(Carried(clip, origin, ear.at), ear.side);
            if (ear.at > origin && ear.side == Client) || (ear.at < origin && ear.side == Host) then read == []
            else read != [] && Keep(OnWire, read) == Cargo(clip)
  {
    hide ReadForSide, Marker, Travels, OnWire;
    CargoIsCargo(clip);
    if ear.at == origin {
      FirstHop(clip, ear.side);
    } else {
      NextHop(Cargo(clip), if ear.at > origin then Client else Host, ear.side);
    }
  }

  /** The reach after a listener has read. */
  function AfterListen(n: nat, origin: nat, r: Reach, ear: Ear): Reach {
    if ear == Ear(r.hi, Host) && r.hi >= origin && r.hi + 1 < n then r.(right := true)
    else if ear == Ear(r.lo, Client) && r.lo <= origin && r.lo > 0 then r.(left := true)
    else r
  }

  lemma SentFrom(s: State, origin: nat, clip: seq<Item>, r: Reach, ear: Ear)
    requires Unmarked(clip) && Cargo(clip) != [] && Spread(s, origin, clip, r) && Enabled(s, Listen(ear))
    ensures Sent(|s.clips|, ear, ReadForSide(s.clips[ear.at], ear.side)) ==
            if ear == Ear(r.hi, Host) && r.hi >= origin && r.hi + 1 < |s.clips| then multiset{RightMessage(r, Cargo(clip))}
            else if ear == Ear(r.lo, Client) && r.lo <= origin && r.lo > 0 then multiset{LeftMessage(r, Cargo(clip))}
            else multiset{}
  {
    hide ReadForSide, Carried, OnWire, WrittenOnce, Cargo;
    ReadsCarried(clip, origin, ear);
    assert Idle(r, origin, ear);
    assert s.clips[ear.at] == Carried(clip, origin, ear.at);
  }

  lemma OneMoreUnderWay(inflight: multiset<Message>, r: Reach, cargo: seq<Item>)
    requires UnderWay(inflight, r, cargo)
    ensures inflight + multiset{} == inflight
    ensures !r.right ==> UnderWay(inflight + multiset{RightMessage(r, cargo)}, r.(right := true), cargo)
    ensures !r.left ==> UnderWay(inflight + multiset{LeftMessage(r, cargo)}, r.(left := true), cargo)
  {
  }

  lemma ListenSends(s: State, origin: nat, clip: seq<Item>, r: Reach, ear: Ear)
    requires Unmarked(clip) && Cargo(clip) != [] && Spread(s, origin, clip, r) && Enabled(s, Listen(ear))
    ensures UnderWay(Next(s, Listen(ear)).inflight, AfterListen(|s.clips|, origin, r, ear), Cargo(clip))
  {
    hide ReadForSide, HaveCopy, WrittenOnce, Sent, Cargo, Idle, UnderWay, LeftMessage, RightMessage;
    SentFrom(s, origin, clip, r, ear);
    OneMoreUnderWay(s.inflight, r, Cargo(clip));
  }

  lemma ListenSpreads(s: State, origin: nat, clip: seq<Item>, r: Reach, ear: Ear) returns (q: Reach)
    requires Unmarked(clip) && Cargo(clip) != [] && Spread(s, origin, clip, r) && Enabled(s, Listen(ear))
    ensures Spread(Next(s, Listen(ear)), origin, clip, q)
  {
    hide ReadForSide, HaveCopy, WrittenOnce, Sent, UnderWay, Cargo;
    ListenSends(s, origin, clip, r, ear);
    assert Idle(r, origin, ear);
    q := AfterListen(|s.clips|, origin, r, ear);
  }

  lemma OneLessUnderWay(inflight: multiset<Message>, r: Reach, lo: nat, hi: nat, cargo: seq<Item>)
    requires UnderWay(inflight, r, cargo)
    ensures r.right ==> RightMessage(r, cargo) in inflight &&
                        UnderWay(inflight - multiset{RightMessage(r, cargo)}, Reach(r.lo, hi, r.left, false), cargo)
    ensures r.left ==> LeftMessage(r, cargo) in inflight &&
                       UnderWay(inflight - multiset{LeftMessage(r, cargo)}, Reach(lo, r.hi, false, r.right), cargo)
  {
  }

  lemma DeliverRight(s: State, origin: nat, clip: seq<Item>, r: Reach) returns (q: Reach)
    requires Unmarked(clip) && Relayable(clip) && Spread(s, origin, clip, r) && r.right
    ensures var m := RightMessage(r, Cargo(clip));
            Enabled(s, Deliver(m)) && Spread(Next(s, Deliver(m)), origin, clip, q)
  {
    hide Cargo, Marker, DataBlockReason, Incoming, Travels;
    CargoIsCargo(clip);
    ArrivalWrites(Cargo(clip), Client);
    OneLessUnderWay(s.inflight, r, 0, r.hi + 1, Cargo(clip));
    q := Reach(r.lo, r.hi + 1, r.left, false);
    WriteRight(s.writes, r.lo, r.hi, origin);
    hide WrittenOnce, UnderWay;
    var t := Next(s, Deliver(RightMessage(r, Cargo(clip))));
    assert UnderWay(t.inflight, q, Cargo(clip));
    assert Fronts(t, q);
    assert HaveCopy(t.clips, origin, clip, q.lo, q.hi);
  }

  lemma DeliverLeft(s: State, origin: nat, clip: seq<Item>, r: Reach) returns (q: Reach)
    requires Unmarked(clip) && Relayable(clip) && Spread(s, origin, clip, r) && r.left
    ensures var m := LeftMessage(r, Cargo(clip));
            Enabled(s, Deliver(m)) && Spread(Next(s, Deliver(m)), origin, clip, q)
  {
    hide Cargo, Marker, DataBlockReason, Incoming, Travels;
    CargoIsCargo(clip);
    ArrivalWrites(Cargo(clip), Host);
    OneLessUnderWay(s.inflight, r, r.lo - 1, r.hi, Cargo(clip));
    q := Reach(r.lo - 1, r.hi, false, r.right);
    WriteLeft(s.writes, r.lo, r.hi, origin);
    hide WrittenOnce, UnderWay;
    var t := Next(s, Deliver(LeftMessage(r, Cargo(clip))));
    assert UnderWay(t.inflight, q, Cargo(clip));
    assert Fronts(t, q);
    assert HaveCopy(t.clips, origin, clip, q.lo, q.hi);
  }

  lemma StepSpreads(s: State, origin: nat, clip: seq<Item>, r: Reach, l: Label) returns (q: Reach)
    requires Unmarked(clip) && Relayable(clip) && Spread(s, origin, clip, r) && Enabled(s, l)
    ensures Spread(Next(s, l), origin, clip, q)
  {
    hide Cargo, Next, DataBlockReason;
    match l
    case Listen(ear) => q := ListenSpreads(s, origin, clip, r, ear);
    case Deliver(m) =>
      if r.right && m == RightMessage(r, Cargo(clip)) {
        q := DeliverRight(s, origin, clip, r);
      } else {
        q := DeliverLeft(s, origin, clip, r);
      }
  }

  // ---------- whole runs ----------

  predicate Runs(s: State, labels: seq<Label>)
    decreases |labels|
  {
    labels == [] || (Enabled(s, labels[0]) && Runs(Next(s, labels[0]), labels[1..]))
  }

  function Final(s: State, labels: seq<Label>): State
    requires Runs(s, labels)
    decreases |labels|
  {
    if labels == [] then s else Final(Next(s, labels[0]), labels[1..])
  }

  predicate Quiet(s: State) {
    s.pending == {} && s.inflight == multiset{}
  }

  /** Work left: a write is worth a message and two notifications. */
  function Work(s: State): int {
    4 * (|s.clips| - 1 - |s.writes|) + 2 * |s.pending| + |s.inflight|
  }

  lemma StepWorks(s: State, l: Label)
    requires Enabled(s, l)
    ensures Work(Next(s, l)) < Work(s) && |Next(s, l).clips| == |s.clips|
  {
    hide ReadForSide, Incoming, OnWire;
    var t := Next(s, l);
    match l
    case Listen(ear) =>
      assert |t.pending| == |s.pending| - 1;
    case Deliver(m) =>
      assert |t.inflight| == |s.inflight| - 1;
      var added := {Ear(m.to, Host), Ear(m.to, Client)};
      assert |added| == 2;
      assert |s.pending + added| <= |s.pending| + |added|;
  }

  lemma {:induction false} RunSpreads(s: State, origin: nat, clip: seq<Item>, r: Reach, labels: seq<Label>) returns (q: Reach)
    requires Unmarked(clip) && Relayable(clip) && Spread(s, origin, clip, r) && Runs(s, labels)
    ensures Spread(Final(s, labels), origin, clip, q)
    ensures Work(Final(s, labels)) + |labels| <= Work(s) && |Final(s, labels).clips| == |s.clips|
    decreases |labels|
  {
    hide Spread, Next, Enabled, Work, Relayable, Unmarked;
    q := r;
    if labels != [] {
      var t := Next(s, labels[0]);
      StepWorks(s, labels[0]);
      var p := StepSpreads(s, origin, clip, r, labels[0]);
      q := RunSpreads(t, origin, clip, p, labels[1..]);
    }
  }

  /**
   In every run after one unmarked copy of something relayable, no machine is written twice and the origin never,
   the run has at most 4n steps, and when nothing is pending any more every other machine holds the copied items.
   */
  lemma RelayReachesEveryoneOnce(s0: State, origin: nat, clip: seq<Item>, labels: seq<Label>)
    requires Copied(s0, origin, clip) && Relayable(clip) && Runs(s0, labels)
    ensures var s, n := Final(s0, labels), |s0.clips|;
            && |s.clips| == n && |labels| <= 4 * n
            && origin !in s.writes
            && (forall j, k :: 0 <= j < k < |s.writes| ==> s.writes[j] != s.writes[k])
            && s.clips[origin] == clip
            && (Quiet(s) ==>
                  && |s.writes| == n - 1
                  && (forall i: nat :: i < n && i != origin ==> i in s.writes)
                  && (forall i: nat :: i < n && i != origin ==>
                        s.clips[i] == Cargo(clip) + [Marker(if i > origin then Client else Host)]))
  {
    hide Runs, Final, Cargo, Marker, Relayable, Unmarked;
    var r := Reach(origin, origin, false, false);
    assert Spread(s0, origin, clip, r);
    assert |s0.pending| == 2;
    var q := RunSpreads(s0, origin, clip, r, labels);
    var s := Final(s0, labels);
    assert s.clips[origin] == Carried(clip, origin, origin);
    if Quiet(s) {
      assert s.inflight[LeftMessage(q, Cargo(clip))] == 0 && s.inflight[RightMessage(q, Cargo(clip))] == 0;
      assert q.lo == 0 && q.hi == |s.clips| - 1;
      assert forall i: nat :: i < |s.clips| ==> s.clips[i] == Carried(clip, origin, i);
    }
  }

  // ---------- copies that are not relayed ----------

  /** Only messages that the receiver drops are under way, and the origin still holds the copy. */
  ghost predicate Stays(s: State, origin: nat, clip: seq<Item>) {
    && origin < |s.clips| && s.clips[origin] == clip && s.writes == []
    && (forall ear :: ear in s.pending ==> ear.at == origin)
    && (forall m :: m in s.inflight ==> m.data == Cargo(clip))
  }

  /** Whatever is sent carries what was read and has a wire form. */
  lemma SentData(n: nat, ear: Ear, read: seq<Item>)
    ensures forall m :: m in Sent(n, ear, read) ==> m.data == Keep(OnWire, read)
  {
    hide OnWire, Keep;
  }

  lemma StepStays(s: State, origin: nat, clip: seq<Item>, l: Label)
    requires Unmarked(clip) && !Relayable(clip) && Stays(s, origin, clip) && Enabled(s, l)
    ensures Stays(Next(s, l), origin, clip)
  {
    hide ReadForSide, OnWire, Cargo, DataBlockReason, Incoming, Unmarked, Keep;
    match l
    case Listen(ear) =>
      FirstHop(clip, ear.side);
      SentData(|s.clips|, ear, ReadForSide(clip, ear.side));
      hide Sent;
    case Deliver(m) =>
      CargoIsCargo(clip);
      ArrivalWrites(Cargo(clip), m.side);
  }

  /** A copy with nothing to relay, or with an item that is blocked, is never written anywhere. */
  lemma {:induction false} NothingElseIsWritten(s: State, origin: nat, clip: seq<Item>, labels: seq<Label>)
    requires Unmarked(clip) && !Relayable(clip) && Stays(s, origin, clip) && Runs(s, labels)
    ensures Stays(Final(s, labels), origin, clip)
    decreases |labels|
  {
    hide Stays, Next, Enabled, Relayable, Unmarked;
    if labels != [] {
      StepStays(s, origin, clip, labels[0]);
      NothingElseIsWritten(Next(s, labels[0]), origin, clip, labels[1..]);
    }
  }

  /** In a run that has gone quiet, something was written exactly if there is a neighbour and the copy is relayable. */
  lemma RelayedIffRelayable(s0: State, origin: nat, clip: seq<Item>, labels: seq<Label>)
    requires Copied(s0, origin, clip) && Runs(s0, labels) && Quiet(Final(s0, labels))
    ensures Final(s0, labels).writes != [] <==> Relayable(clip) && |s0.clips| > 1
  {
    hide Runs, Final, Cargo, Marker, Relayable, Unmarked;
    if Relayable(clip) {
      RelayReachesEveryoneOnce(s0, origin, clip, labels);
    } else {
      assert Stays(s0, origin, clip);
      NothingElseIsWritten(s0, origin, clip, labels);
    }
  }

  /** A run that is not quiet can go on. */
  lemma NeverStuck(s0: State, origin: nat, clip: seq<Item>, labels: seq<Label>)
    requires Copied(s0, origin, clip) && Relayable(clip) && Runs(s0, labels) && !Quiet(Final(s0, labels))
    ensures exists l :: Enabled(Final(s0, labels), l)
  {
    var r := Reach(origin, origin, false, false);
    assert Spread(s0, origin, clip, r);
    var q := RunSpreads(s0, origin, clip, r, labels);
    var s := Final(s0, labels);
    hide Runs, Final, Cargo, Marker, Relayable;
    if s.pending != {} {
      var ear :| ear in s.pending;
      assert Idle(q, origin, ear);
      assert Enabled(s, Listen(ear));
    } else {
      var m :| m in s.inflight;
      assert s.inflight[m] > 0;
      assert Enabled(s, Deliver(m));
    }
  }

  // ---------- an ordinary copy ----------

  /** Something to see, of a kind that every machine takes and writes. */
  predicate IsOrdinary(item: Item) {
    match item
    case Text(text) => text != []
    case Html(_) => true
    case Rtf(_) => true
    case Image(_) => true
    case Special(name, _) => Spells(name, ExcelFormat())
    case _ => false
  }

  lemma OrdinaryIsRelayed(item: Item)
    requires IsOrdinary(item)
    ensures IsSent(item) && MayBeWritten(item) && IsNoOwnerItem(item)
  {
    if item.Special? {
      assert ExcelFormat() != OwnerFormat() && |ExcelFormat()| != |OwnerFormat()|;
    }
  }

  /** In every finished run, a copy of ordinary items is on all other machines whole, with the mark of the side that wrote it. */
  lemma OrdinaryCopyReachesAll(s0: State, origin: nat, clip: seq<Item>, labels: seq<Label>)
    requires Copied(s0, origin, clip) && Runs(s0, labels) && Quiet(Final(s0, labels))
    requires clip != [] && forall item :: item in clip ==> IsOrdinary(item)
    ensures var s := Final(s0, labels);
            && |s.clips| == |s0.clips| && |s.writes| == |s.clips| - 1
            && forall i: nat :: i < |s.clips| ==>
                 s.clips[i] == if i == origin then clip
                               else clip + [Special(OwnerFormat(), [if i > origin then 2 else 1])]
  {
    hide Runs, Final, OwnerFormat, IsOrdinary, MayBeWritten, IsSent, Unmarked, IsNoOwnerItem, DataBlockReason, Cargo;
    forall item | item in clip ensures IsSent(item) && MayBeWritten(item) && IsNoOwnerItem(item) {
      OrdinaryIsRelayed(item);
    }
    CargoIsSent(clip);
    KeepAll(IsSent, clip);
    PayloadPassesIff(clip);
    RelayReachesEveryoneOnce(s0, origin, clip, labels);
  }

  /** So is one text that is not empty. */
  lemma TextReachesAll(s0: State, origin: nat, text: seq<Byte>, labels: seq<Label>)
    requires Copied(s0, origin, [Text(text)]) && Runs(s0, labels) && Quiet(Final(s0, labels)) && text != []
    ensures var s := Final(s0, labels);
            |s.clips| == |s0.clips| && forall i: nat :: i < |s.clips| ==> Text(text) in s.clips[i]
  {
    hide Runs, Final, Unmarked, OwnerFormat;
    OrdinaryCopyReachesAll(s0, origin, [Text(text)], labels);
  }
}
