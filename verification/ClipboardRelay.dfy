/**
 Clipboard relay along a chain of machines (src/clipboard.rs:508-510, 1713-1787, 1945-1974, 2142-2162).

 Machine i + 1 is a client of machine i, so an inner machine is a host to one neighbour and a client to the other.
 Owner markers stop a written clipboard from going back where it came from.
 */
module ClipboardRelay {
  import opened Prelude
  import opened Lists
  import opened ClipboardItems
  import opened FormatNames

  function OwnerData(side: Side): seq<Byte> {
    if side == Host then [1] else [2]
  }

  /** Bit 0 marks the host, bit 1 the client. */
  predicate IsOwner(side: Side, data: seq<Byte>) {
    data != [] && if side == Host then data[0] % 2 == 1 else data[0] / 2 % 2 == 1
  }

  function Marker(side: Side): Item {
    Special(OwnerFormat(), OwnerData(side))
  }

  predicate OwnedBy(side: Side, item: Item) {
    item.Special? && item.name == OwnerFormat() && IsOwner(side, item.data)
  }

  predicate Present(item: Item) {
    !item.NoData?
  }

  predicate Readable(item: Item) {
    !(item.Special? && item.name == OwnerFormat()) && !(item.Text? && item.text == [])
  }

  /** What a listener on this side takes from the clipboard. */
  function ReadForSide(clip: seq<Item>, side: Side): seq<Item> {
    var data := Keep(Present, clip);
    if exists i :: 0 <= i < |data| && OwnedBy(side, data[i]) then [] else Keep(Readable, data)
  }

  /** What the receiving machine writes to its clipboard, if anything. */
  function Incoming(data: seq<Item>, side: Side): Option<seq<Item>> {
    if data == [] || !DataBlockReason(data).Unblocked? then None
    else
      var kept := WithoutMarkers(data);
      if kept == [] then None else Some(kept + [Marker(side)])
  }

  method ApplyIncoming(data: seq<Item>, side: Side) returns (clip: Option<seq<Item>>)
    ensures clip == Incoming(data, side)
  {
    hide IsOwnerMarker, OwnerFormat, ItemBlockReason;
    if data == [] {
      return None;
    }
    var reason := FindBlockReason(data);
    if !reason.Unblocked? {
      return None;
    }
    var kept := [];
    for i := 0 to |data|
      invariant kept + WithoutMarkers(data[i..]) == WithoutMarkers(data)
    {
      WithoutMarkersStep(data[i..]);
      assert data[i..][1..] == data[i + 1..];
      if !IsOwnerMarker(data[i]) {
        Assoc(kept, [data[i]], WithoutMarkers(data[i + 1..]));
        kept := kept + [data[i]];
      }
    }
    assert data[|data|..] == [] && WithoutMarkers([]) == [] && kept + [] == kept;
    if kept == [] {
      return None;
    }
    return Some(kept + [Marker(side)]);
  }

  // ---------- one hop ----------

  predicate Travels(item: Item) {
    OnWire(item) && Readable(item) && !IsOwnerMarker(item)
  }

  predicate Unmarked(clip: seq<Item>) {
    forall item :: item in clip ==> !IsOwnerMarker(item)
  }

  /** The items of an unmarked clipboard that are relayed. */
  function Cargo(clip: seq<Item>): seq<Item> {
    Keep(Travels, clip)
  }

  lemma MarkerIsMarker(side: Side)
    ensures IsOwnerMarker(Marker(side)) && OwnedBy(side, Marker(side)) && !Readable(Marker(side))
    ensures forall other: Side :: other != side ==> !OwnedBy(other, Marker(side))
  {
    hide OwnerFormat;
  }

  lemma {:induction false} KeepNone(clip: seq<Item>, side: Side)
    requires Unmarked(clip)
    ensures ReadForSide(clip, side) == Keep(Readable, Keep(Present, clip))
  {
    hide IsOwnerMarker, OwnedBy, OwnerFormat;
    var data := Keep(Present, clip);
    forall i | 0 <= i < |data| ensures !OwnedBy(side, data[i]) {
      KeepMembers(Present, clip, data[i]);
      NotOwned(side, data[i]);
    }
  }

  lemma NotOwned(side: Side, item: Item)
    requires !IsOwnerMarker(item)
    ensures !OwnedBy(side, item) && !(item.Special? && item.name == OwnerFormat())
  {
    hide OwnerFormat;
  }

  lemma UnmarkedCargo(clip: seq<Item>)
    requires Unmarked(clip)
    ensures Keep(OnWire, Keep(Readable, Keep(Present, clip))) == Cargo(clip)
  {
    hide IsOwnerMarker, OwnerFormat;
    var read := item => Present(item) && Readable(item);
    KeepTwice(Readable, Present, read, clip);
    KeepTwice(OnWire, read, Travels, clip);
  }

  /** The first hop carries the cargo of the copied clipboard, whichever side reads it. */
  lemma FirstHop(clip: seq<Item>, side: Side)
    requires Unmarked(clip)
    ensures Keep(OnWire, ReadForSide(clip, side)) == Cargo(clip)
  {
    KeepNone(clip, side);
    UnmarkedCargo(clip);
  }

  predicate IsCargo(data: seq<Item>) {
    forall item :: item in data ==> Travels(item)
  }

  lemma CargoIsCargo(clip: seq<Item>)
    ensures IsCargo(Cargo(clip))
  {
    forall item | item in Cargo(clip) ensures Travels(item) {
      KeepMembers(Travels, clip, item);
    }
  }

  lemma CargoUnchanged(data: seq<Item>)
    requires IsCargo(data)
    ensures Keep(Present, data) == data && Keep(Readable, data) == data && Keep(OnWire, data) == data
    ensures WithoutMarkers(data) == data
  {
    hide IsOwnerMarker, OwnerFormat;
    KeepAll(Present, data);
    KeepAll(Readable, data);
    KeepAll(OnWire, data);
    KeepAll(IsPayload, data);
  }

  lemma PresentWritten(data: seq<Item>, writer: Side)
    requires IsCargo(data)
    ensures Keep(Present, data + [Marker(writer)]) == data + [Marker(writer)]
  {
    hide IsOwnerMarker, OwnerFormat;
    CargoUnchanged(data);
    KeepConcat(Present, data, [Marker(writer)]);
    KeepAll(Present, [Marker(writer)]);
  }

  /** A written clipboard is passed on unchanged by the other side and not read again by the side that wrote it. */
  lemma NextHop(data: seq<Item>, writer: Side, side: Side)
    requires IsCargo(data)
    ensures ReadForSide(data + [Marker(writer)], side) == if side == writer then [] else data
    ensures Keep(OnWire, data) == data
  {
    hide IsOwnerMarker, OwnedBy, OwnerFormat;
    var clip := data + [Marker(writer)];
    MarkerIsMarker(writer);
    PresentWritten(data, writer);
    CargoUnchanged(data);
    if side == writer {
      assert clip[|data|] == Marker(writer);
    } else {
      forall i | 0 <= i < |clip| ensures !OwnedBy(side, clip[i]) {
        if i < |data| {
          assert clip[i] in data;
          NotOwned(side, clip[i]);
        }
      }
      KeepConcat(Readable, data, [Marker(writer)]);
      assert Keep(Readable, [Marker(writer)]) == [];
    }
  }

  /** The clipboard holds something that may be relayed. */
  predicate Relayable(clip: seq<Item>) {
    Cargo(clip) != [] && DataBlockReason(Cargo(clip)).Unblocked?
  }

  lemma ArrivalWrites(data: seq<Item>, side: Side)
    requires IsCargo(data)
    ensures Incoming(data, side) ==
            if data != [] && DataBlockReason(data).Unblocked? then Some(data + [Marker(side)]) else None
  {
    CargoUnchanged(data);
  }

  // ---------- the same by kinds and bytes ----------

  /** The first byte of a marker has bit 0 for the host and bit 1 for the client. */
  predicate HasBit(side: Side, data: seq<Byte>) {
    data != [] && data[0] % 4 in (if side == Host then {1, 3} else {2, 3})
  }

  /** The clipboard was written on this side of a connection. */
  predicate WrittenHere(clip: seq<Item>, side: Side) {
    exists i :: 0 <= i < |clip| && clip[i].Special? && clip[i].name == OwnerFormat() && HasBit(side, clip[i].data)
  }

  /** What a listener takes of a clipboard that its side did not write. */
  predicate IsTaken(item: Item) {
    match item
    case Text(text) => text != []
    case Special(name, _) => name != OwnerFormat()
    case NoData => false
    case _ => true
  }

  /** Non-empty texts, pages, rich texts, images and any formats but the owner's. */
  predicate IsSent(item: Item) {
    match item
    case Text(text) => text != []
    case Html(_) => true
    case Rtf(_) => true
    case Image(_) => true
    case Special(name, _) => name != OwnerFormat()
    case _ => false
  }

  lemma OwnedIff(side: Side, item: Item)
    ensures OwnedBy(side, item) <==> item.Special? && item.name == OwnerFormat() && HasBit(side, item.data)
  {
    if item.Special? && item.data != [] {
      var b := item.data[0];
      assert b % 4 == 2 * (b / 2 % 2) + b % 2;
    }
  }

  lemma WrittenHereIff(clip: seq<Item>, side: Side)
    ensures WrittenHere(clip, side) <==>
            var data := Keep(Present, clip); exists i :: 0 <= i < |data| && OwnedBy(side, data[i])
  {
    hide OwnerFormat, HasBit, OwnedBy;
    var data := Keep(Present, clip);
    if i :| 0 <= i < |clip| && clip[i].Special? && clip[i].name == OwnerFormat() && HasBit(side, clip[i].data) {
      OwnedIff(side, clip[i]);
      KeepMembers(Present, clip, clip[i]);
      assert clip[i] in data;
    }
    if i :| 0 <= i < |data| && OwnedBy(side, data[i]) {
      OwnedIff(side, data[i]);
      KeepMembers(Present, clip, data[i]);
      assert data[i] in clip;
    }
  }

  /** Any clipboard at all: nothing of it is taken on the side that wrote it, and elsewhere all that `IsTaken` says, in order. */
  lemma TakenExactly(clip: seq<Item>, side: Side)
    ensures ReadForSide(clip, side) == if WrittenHere(clip, side) then [] else Keep(IsTaken, clip)
  {
    hide OwnerFormat, OwnedBy, WrittenHere;
    WrittenHereIff(clip, side);
    KeepTwice(Readable, Present, IsTaken, clip);
  }

  /** ... and sent is what of it has a wire form. */
  lemma SentExactly(clip: seq<Item>, side: Side)
    ensures var sent := Keep(OnWire, ReadForSide(clip, side));
            && sent == (if WrittenHere(clip, side) then [] else Keep(IsSent, clip))
            && forall item :: item in sent <==>
                 && !WrittenHere(clip, side) && item in clip
                 && ( || (item.Text? && item.text != []) || item.Html? || item.Rtf? || item.Image?
                      || (item.Special? && item.name != OwnerFormat()))
  {
    hide OwnerFormat, WrittenHere;
    TakenExactly(clip, side);
    KeepTwice(OnWire, IsTaken, IsSent, clip);
    forall item {
      KeepMembers(IsSent, clip, item);
    }
  }

  /** The cargo of an unmarked clipboard is what is sent of it. */
  lemma CargoIsSent(clip: seq<Item>)
    requires forall item :: item in clip ==> IsNoOwnerItem(item)
    ensures Unmarked(clip) && Cargo(clip) == Keep(IsSent, clip)
  {
    hide OwnerFormat, IsOwnerMarker, IsNoOwnerItem;
    forall item | item in clip ensures !IsOwnerMarker(item) && (Travels(item) <==> IsSent(item)) {
      MarkerIff(item);
      NotOwned(Host, item);
    }
    KeepSame(Travels, IsSent, clip);
  }

  /** What is written on the receiving side: all items but the owner's, behind them the mark of this side, if all may be. */
  lemma IncomingExactly(data: seq<Item>, side: Side)
    ensures Incoming(data, side) ==
            var kept := Keep(IsNoOwnerItem, data);
            if kept != [] && forall item :: item in data ==> MayBeWritten(item)
            then Some(kept + [Special(OwnerFormat(), [if side == Host then 1 else 2])]) else None
  {
    hide OwnerFormat, MayBeWritten, DataBlockReason, WithoutMarkers, IsNoOwnerItem;
    PayloadPassesIff(data);
    WithoutMarkersIs(data);
  }
}
