/**
 The byte signature that identifies a clipboard payload (src/clipboard.rs:512-575).

 Its main property: the bytes can be decoded, so equal signatures mean equal payloads up to owner markers.
 */
module PayloadSignature {
  import opened Prelude
  import opened Lists
  import opened ClipboardItems

  /** Little-endian, `k` bytes. */
  function Le(n: nat, k: nat): (b: seq<Byte>)
    ensures |b| == k
  {
    if k == 0 then [] else [n % 256] + Le(n / 256, k - 1)
  }

  function FromLe(b: seq<Byte>): nat {
    if b == [] then 0 else b[0] + 256 * FromLe(b[1..])
  }

  function Pow256(k: nat): nat {
    if k == 0 then 1 else 256 * Pow256(k - 1)
  }

  lemma {:induction false} FromLeOfLe(n: nat, k: nat)
    requires n < Pow256(k)
    ensures FromLe(Le(n, k)) == n
  {
    if k > 0 {
      FromLeOfLe(n / 256, k - 1);
      assert Le(n, k)[1..] == Le(n / 256, k - 1);
    }
  }

  lemma U64IsPow()
    ensures Pow256(8) == U64
  {
    assert Pow256(4) == 0x1_0000_0000;
  }

  function Num(n: nat): (b: seq<Byte>)
    ensures |b| == 8
  {
    Le(n, 8)
  }

  function Block(x: seq<Byte>): seq<Byte> {
    Num(|x|) + x
  }

  function Blocks(xs: seq<seq<Byte>>): seq<Byte> {
    if xs == [] then [] else Block(xs[0]) + Blocks(xs[1..])
  }

  /** The bytes of one item that is not an owner marker. */
  function ItemBytes(item: Item): seq<Byte> {
    match item
    case Unsupported => [0]
    case Text(text) => [1] + Block(text)
    case Html(html) => [2] + Block(html)
    case Rtf(rtf) => [3] + Block(rtf)
    case Image(Rgba(w, h, pixels)) => [4] + (Num(w) + (Num(h) + Block(pixels)))
    case Image(Png(png)) => [5] + Block(png)
    case Image(Svg(svg)) => [6] + Block(svg)
    case Special(name, data) => [7] + (Block(name) + Block(data))
    case FileUrl(urls) => [8] + (Num(|urls|) + Blocks(urls))
    case NoData => [9]
  }

  function ItemPart(item: Item): seq<Byte> {
    if IsOwnerMarker(item) then [] else ItemBytes(item)
  }

  function Signature(data: seq<Item>): seq<Byte> {
    if data == [] then [] else ItemPart(data[0]) + Signature(data[1..])
  }

  lemma SignatureFrom(data: seq<Item>, i: nat)
    requires i < |data|
    ensures Signature(data[i..]) == ItemPart(data[i]) + Signature(data[i + 1..])
  {
    hide ItemPart;
    assert data[i..][1..] == data[i + 1..];
  }

  method PushUrls(signature: seq<Byte>, urls: seq<seq<Byte>>) returns (r: seq<Byte>)
    ensures r == signature + Blocks(urls)
  {
    r := signature;
    for i := 0 to |urls|
      invariant r + Blocks(urls[i..]) == signature + Blocks(urls)
    {
      assert urls[i..][1..] == urls[i + 1..];
      Assoc(r, Block(urls[i]), Blocks(urls[i + 1..]));
      r := r + Block(urls[i]);
    }
  }

  lemma Regroup(a: seq<Byte>, b: seq<Byte>, c: seq<Byte>, d: seq<Byte>)
    ensures a + b + c + d == a + (b + (c + d))
  {
    Assoc(a + b, c, d);
    Assoc(a, b, c + d);
  }

  method PushItem(before: seq<Byte>, item: Item) returns (signature: seq<Byte>)
    ensures signature == before + ItemBytes(item)
  {
    hide Num, Block, Blocks;
    match item {
      case Unsupported => signature := before + [0];
      case Text(text) => signature := PushTagged(before, 1, text);
      case Html(html) => signature := PushTagged(before, 2, html);
      case Rtf(rtf) => signature := PushTagged(before, 3, rtf);
      case Image(Rgba(w, h, pixels)) =>
        signature := before + [4] + Num(w) + Num(h) + Block(pixels);
        Regroup(before + [4], Num(w), Num(h), Block(pixels));
        Assoc(before, [4], Num(w) + (Num(h) + Block(pixels)));
      case Image(Png(png)) => signature := PushTagged(before, 5, png);
      case Image(Svg(svg)) => signature := PushTagged(before, 6, svg);
      case Special(name, bytes) =>
        signature := before + [7] + Block(name) + Block(bytes);
        Regroup(before, [7], Block(name), Block(bytes));
      case FileUrl(urls) =>
        signature := PushUrls(before + [8] + Num(|urls|), urls);
        Regroup(before, [8], Num(|urls|), Blocks(urls));
      case NoData => signature := before + [9];
    }
  }

  method PushTagged(before: seq<Byte>, tag: Byte, bytes: seq<Byte>) returns (signature: seq<Byte>)
    ensures signature == before + ([tag] + Block(bytes))
  {
    hide Block;
    signature := before + [tag];
    signature := signature + Block(bytes);
    Assoc(before, [tag], Block(bytes));
  }

  method BuildSignature(data: seq<Item>) returns (signature: seq<Byte>)
    ensures signature == Signature(data)
  {
    hide ItemBytes, IsOwnerMarker, Signature;
    signature := [];
    assert data[0..] == data;
    for i := 0 to |data|
      invariant signature + Signature(data[i..]) == Signature(data)
    {
      SignatureFrom(data, i);
      Assoc(signature, ItemPart(data[i]), Signature(data[i + 1..]));
      if !IsOwnerMarker(data[i]) {
        signature := PushItem(signature, data[i]);
      }
    }
    NoSignature(data[|data|..]);
  }

  lemma NoSignature(data: seq<Item>)
    requires data == []
    ensures Signature(data) == []
  {
  }

  function Tag(item: Item): Byte {
    match item
    case Unsupported => 0
    case Text(_) => 1
    case Html(_) => 2
    case Rtf(_) => 3
    case Image(Rgba(_, _, _)) => 4
    case Image(Png(_)) => 5
    case Image(Svg(_)) => 6
    case Special(_, _) => 7
    case FileUrl(_) => 8
    case NoData => 9
  }

  // ---------- decoding ----------

  /** Lengths and image sides are machine words. */
  predicate ItemFits(item: Item) {
    match item
    case Text(text) => |text| < U64
    case Html(html) => |html| < U64
    case Rtf(rtf) => |rtf| < U64
    case Image(Rgba(w, h, pixels)) => w < U64 && h < U64 && |pixels| < U64
    case Image(Png(png)) => |png| < U64
    case Image(Svg(svg)) => |svg| < U64
    case Special(name, data) => |name| < U64 && |data| < U64
    case FileUrl(urls) => |urls| < U64 && forall i :: 0 <= i < |urls| ==> |urls[i]| < U64
    case _ => true
  }

  predicate Fits(data: seq<Item>) {
    forall i :: 0 <= i < |data| ==> ItemFits(data[i])
  }

  /** A value read from the front of some bytes, and the bytes behind it. */
  datatype Read<+T> = Bad | Got(value: T, rest: seq<Byte>)

  function ReadNum(b: seq<Byte>): (r: Read<nat>)
    ensures r.Got? ==> |r.rest| < |b|
  {
    if |b| < 8 then Bad else Got(FromLe(b[..8]), b[8..])
  }

  function ReadBlock(b: seq<Byte>): (r: Read<seq<Byte>>)
    ensures r.Got? ==> |r.rest| < |b|
  {
    match ReadNum(b)
    case Bad => Bad
    case Got(n, rest) => if n <= |rest| then Got(rest[..n], rest[n..]) else Bad
  }

  function ReadBlocks(b: seq<Byte>, count: nat): (r: Read<seq<seq<Byte>>>)
    ensures r.Got? ==> |r.rest| <= |b|
    decreases count
  {
    if count == 0 then Got([], b)
    else match ReadBlock(b)
      case Bad => Bad
      case Got(x, rest) =>
        match ReadBlocks(rest, count - 1)
        case Bad => Bad
        case Got(xs, more) => Got([x] + xs, more)
  }

  function ReadWith(b: seq<Byte>, make: seq<Byte> -> Item): (r: Read<Item>)
    ensures r.Got? ==> |r.rest| < |b|
  {
    match ReadBlock(b) case Bad => Bad case Got(x, rest) => Got(make(x), rest)
  }

  function ReadSpecial(b: seq<Byte>): (r: Read<Item>)
    ensures r.Got? ==> |r.rest| < |b|
  {
    match ReadBlock(b)
    case Bad => Bad
    case Got(name, rest) => match ReadBlock(rest) case Bad => Bad case Got(data, more) => Got(Special(name, data), more)
  }

  function ReadRgba(b: seq<Byte>): (r: Read<Item>)
    ensures r.Got? ==> |r.rest| < |b|
  {
    match ReadNum(b)
    case Bad => Bad
    case Got(w, rest) =>
      match ReadNum(rest)
      case Bad => Bad
      case Got(h, more) => match ReadBlock(more) case Bad => Bad case Got(x, end) => Got(Image(Rgba(w, h, x)), end)
  }

  function ReadUrls(b: seq<Byte>): (r: Read<Item>)
    ensures r.Got? ==> |r.rest| < |b|
  {
    match ReadNum(b)
    case Bad => Bad
    case Got(n, rest) => match ReadBlocks(rest, n) case Bad => Bad case Got(xs, more) => Got(FileUrl(xs), more)
  }

  function ReadItem(b: seq<Byte>): (r: Read<Item>)
    ensures r.Got? ==> |r.rest| < |b|
  {
    if b == [] then Bad
    else match b[0]
      case 0 => Got(Unsupported, b[1..])
      case 1 => ReadWith(b[1..], x => Text(x))
      case 2 => ReadWith(b[1..], x => Html(x))
      case 3 => ReadWith(b[1..], x => Rtf(x))
      case 4 => ReadRgba(b[1..])
      case 5 => ReadWith(b[1..], x => Image(Png(x)))
      case 6 => ReadWith(b[1..], x => Image(Svg(x)))
      case 7 => ReadSpecial(b[1..])
      case 8 => ReadUrls(b[1..])
      case 9 => Got(NoData, b[1..])
      case _ => Bad
  }

  function Decode(b: seq<Byte>): Option<seq<Item>>
    decreases |b|
  {
    if b == [] then Some([])
    else match ReadItem(b)
      case Bad => None
      case Got(item, rest) => match Decode(rest) case None => None case Some(items) => Some([item] + items)
  }

  lemma ReadsNum(n: nat, rest: seq<Byte>)
    requires n < U64
    ensures ReadNum(Num(n) + rest) == Got(n, rest)
  {
    hide Le, FromLe, Pow256;
    U64IsPow();
    FromLeOfLe(n, 8);
    assert (Num(n) + rest)[..8] == Num(n) && (Num(n) + rest)[8..] == rest;
  }

  lemma ReadsBlock(x: seq<Byte>, rest: seq<Byte>)
    requires |x| < U64
    ensures ReadBlock(Block(x) + rest) == Got(x, rest)
  {
    hide Num, ReadNum;
    ReadsNum(|x|, x + rest);
    assert Block(x) + rest == Num(|x|) + (x + rest);
    assert (x + rest)[..|x|] == x && (x + rest)[|x|..] == rest;
  }

  lemma {:induction false} ReadsBlocks(xs: seq<seq<Byte>>, rest: seq<Byte>)
    requires forall i :: 0 <= i < |xs| ==> |xs[i]| < U64
    ensures ReadBlocks(Blocks(xs) + rest, |xs|) == Got(xs, rest)
  {
    hide Block, ReadBlock;
    if xs == [] {
      assert Blocks(xs) + rest == rest;
    } else {
      ReadsBlock(xs[0], Blocks(xs[1..]) + rest);
      ReadsBlocks(xs[1..], rest);
      assert Blocks(xs) + rest == Block(xs[0]) + (Blocks(xs[1..]) + rest);
      assert [xs[0]] + xs[1..] == xs;
    }
  }

  lemma ReadsRgba(w: nat, h: nat, x: seq<Byte>, rest: seq<Byte>)
    requires w < U64 && h < U64 && |x| < U64
    ensures ReadRgba(Num(w) + (Num(h) + Block(x)) + rest) == Got(Image(Rgba(w, h, x)), rest)
  {
    hide Num, Block, ReadNum, ReadBlock;
    assert Num(w) + (Num(h) + Block(x)) + rest == Num(w) + (Num(h) + (Block(x) + rest));
    ReadsNum(w, Num(h) + (Block(x) + rest));
    ReadsNum(h, Block(x) + rest);
    ReadsBlock(x, rest);
  }

  lemma ReadsSpecial(name: seq<Byte>, data: seq<Byte>, rest: seq<Byte>)
    requires |name| < U64 && |data| < U64
    ensures ReadSpecial(Block(name) + Block(data) + rest) == Got(Special(name, data), rest)
  {
    hide Block, ReadBlock;
    assert Block(name) + Block(data) + rest == Block(name) + (Block(data) + rest);
    ReadsBlock(name, Block(data) + rest);
    ReadsBlock(data, rest);
  }

  lemma ReadsUrls(urls: seq<seq<Byte>>, rest: seq<Byte>)
    requires |urls| < U64 && forall i :: 0 <= i < |urls| ==> |urls[i]| < U64
    ensures ReadUrls(Num(|urls|) + Blocks(urls) + rest) == Got(FileUrl(urls), rest)
  {
    hide Num, Blocks, ReadNum, ReadBlocks;
    assert Num(|urls|) + Blocks(urls) + rest == Num(|urls|) + (Blocks(urls) + rest);
    ReadsNum(|urls|, Blocks(urls) + rest);
    ReadsBlocks(urls, rest);
  }

  function Body(item: Item): seq<Byte> {
    ItemBytes(item)[1..]
  }

  lemma ReadsItem(item: Item, rest: seq<Byte>)
    requires ItemFits(item)
    ensures ReadItem(ItemBytes(item) + rest) == Got(item, rest)
  {
    hide Num, Block, Blocks, ReadBlock, ReadRgba, ReadSpecial, ReadUrls;
    var b := ItemBytes(item) + rest;
    assert b[0] == Tag(item) && b[1..] == Body(item) + rest;
    match item
    case Unsupported =>
    case NoData =>
    case Text(text) => ReadsBlock(text, rest);
    case Html(html) => ReadsBlock(html, rest);
    case Rtf(rtf) => ReadsBlock(rtf, rest);
    case Image(Rgba(w, h, pixels)) => ReadsRgba(w, h, pixels, rest);
    case Image(Png(png)) => ReadsBlock(png, rest);
    case Image(Svg(svg)) => ReadsBlock(svg, rest);
    case Special(name, data) => ReadsSpecial(name, data, rest);
    case FileUrl(urls) => ReadsUrls(urls, rest);
  }

  /** The decoder recovers the item list with its owner markers removed. */
  lemma {:induction false} DecodeSignature(data: seq<Item>)
    requires Fits(data)
    ensures Decode(Signature(data)) == Some(WithoutMarkers(data))
  {
    hide ItemBytes, ReadItem, IsOwnerMarker, ItemFits;
    if data != [] {
      DecodeSignature(data[1..]);
      var rest := Signature(data[1..]);
      if IsOwnerMarker(data[0]) {
        assert Signature(data) == rest && WithoutMarkers(data) == WithoutMarkers(data[1..]);
      } else {
        ReadsItem(data[0], rest);
      }
    }
  }

  lemma SignatureCons(item: Item, rest: seq<Item>)
    ensures Signature([item] + rest) == ItemPart(item) + Signature(rest)
  {
    hide ItemPart;
    assert ([item] + rest)[1..] == rest;
  }

  lemma {:induction false} SignatureSkipsMarkers(data: seq<Item>)
    ensures Signature(WithoutMarkers(data)) == Signature(data)
  {
    if data != [] {
      var rest := data[1..];
      SignatureSkipsMarkers(rest);
      hide Signature, WithoutMarkers, ItemBytes, IsOwnerMarker;
      assert data[0..] == data;
      SignatureFrom(data, 0);
      SignatureCons(data[0], WithoutMarkers(rest));
      WithoutMarkersStep(data);
      assert IsOwnerMarker(data[0]) ==> ItemPart(data[0]) == [];
    }
  }

  /** Two payloads have equal signatures exactly when they are equal up to owner markers. */
  lemma SignatureIdentifiesPayload(a: seq<Item>, b: seq<Item>)
    requires Fits(a) && Fits(b)
    ensures Signature(a) == Signature(b) <==> WithoutMarkers(a) == WithoutMarkers(b)
  {
    DecodeSignature(a);
    DecodeSignature(b);
    SignatureSkipsMarkers(a);
    SignatureSkipsMarkers(b);
  }

  lemma FitsConcat(a: seq<Item>, b: seq<Item>)
    requires Fits(a) && Fits(b)
    ensures Fits(a + b)
  {
  }

  /** Lists that differ in one item under other names than the owner's have different signatures. */
  lemma OneItemIsTold(front: seq<Item>, a: Item, b: Item, back: seq<Item>)
    requires Fits(front) && Fits(back) && ItemFits(a) && ItemFits(b)
    requires a.Special? ==> !Spells(a.name, OwnerFormat())
    requires b.Special? ==> !Spells(b.name, OwnerFormat())
    ensures Signature(front + [a] + back) == Signature(front + [b] + back) <==> a == b
  {
    hide Fits, ItemFits, Signature, WithoutMarkers, Spells, OwnerFormat;
    FitsOne(a);
    FitsOne(b);
    FitsConcat(front, [a]);
    FitsConcat(front + [a], back);
    FitsConcat(front, [b]);
    FitsConcat(front + [b], back);
    SignatureIdentifiesPayload(front + [a] + back, front + [b] + back);
    WithoutMarkersAround(front, a, back);
    WithoutMarkersAround(front, b, back);
    var x, y := WithoutMarkers(front), WithoutMarkers(back);
    assert (x + [a] + y)[|x|] == a && (x + [b] + y)[|x|] == b;
  }

  lemma FitsOne(a: Item)
    requires ItemFits(a)
    ensures Fits([a])
  {
  }

  lemma WithoutMarkersAround(front: seq<Item>, a: Item, back: seq<Item>)
    requires a.Special? ==> !Spells(a.name, OwnerFormat())
    ensures WithoutMarkers(front + [a] + back) == WithoutMarkers(front) + [a] + WithoutMarkers(back)
  {
    hide IsOwnerMarker, Spells, OwnerFormat;
    NoOwnerItemIs(a);
    MarkerIff(a);
    KeepConcat(IsPayload, front + [a], back);
    KeepConcat(IsPayload, front, [a]);
    KeepAll(IsPayload, [a]);
  }
}
