/**
 Clipboard lists on the wire (src/clipboard.rs:3155-3292).

 Compression is a parameter: all that matters is that decompression inverts it.
 */
module WireEncoding {
  import opened Prelude
  import opened Lists
  import opened ClipboardItems
  import Utf8

  datatype Format = TextFormat | RtfFormat | HtmlFormat | RgbaFormat | PngFormat | SvgFormat | SpecialFormat | OtherFormat

  /** Width and height are signed 32-bit fields. */
  datatype Clipboard =
    Clipboard(compress: bool, content: seq<Byte>, width: int, height: int, format: Format, specialName: seq<Byte>)

  type Codec = seq<Byte> -> seq<Byte>

  ghost predicate Inverts(decompress: Codec, compress: Codec) {
    forall x :: decompress(compress(x)) == x
  }

  const I32: int := 0x8000_0000

  /** `usize as i32` keeps the low 32 bits. */
  function ToI32(n: nat): int {
    var low := n % (2 * I32);
    if low < I32 then low else low - 2 * I32
  }

  /** `i32 as usize` extends the sign. */
  function FromI32(n: int): nat
    requires -U64 <= n
  {
    if n >= 0 then n else n + U64
  }

  /** The compressed bytes are used only where they are shorter. */
  function Shorter(raw: seq<Byte>, compress: Codec): (bool, seq<Byte>) {
    var packed := compress(raw);
    if |packed| < |raw| then (true, packed) else (false, raw)
  }

  function Packed(raw: seq<Byte>, w: int, h: int, format: Format, name: seq<Byte>, compress: Codec): Clipboard {
    var (flag, content) := Shorter(raw, compress);
    Clipboard(flag, content, w, h, format, name)
  }

  function ToProto(item: Item, compress: Codec): Option<Clipboard> {
    match item
    case Text(text) => Some(Packed(text, 0, 0, TextFormat, [], compress))
    case Rtf(rtf) => Some(Packed(rtf, 0, 0, RtfFormat, [], compress))
    case Html(html) => Some(Packed(html, 0, 0, HtmlFormat, [], compress))
    case Image(Rgba(w, h, pixels)) => Some(Packed(pixels, ToI32(w), ToI32(h), RgbaFormat, [], compress))
    case Image(Png(png)) => Some(Clipboard(false, png, 0, 0, PngFormat, []))
    case Image(Svg(svg)) => Some(Packed(svg, 0, 0, SvgFormat, [], compress))
    case Special(name, data) => Some(Packed(data, 0, 0, SpecialFormat, name, compress))
    case _ => None
  }

  predicate InRange(c: Clipboard) {
    -I32 <= c.width < I32 && -I32 <= c.height < I32
  }

  ghost function FromProto(c: Clipboard, decompress: Codec): Option<Item>
    requires InRange(c)
  {
    var data := if c.compress then decompress(c.content) else c.content;
    match c.format
    case TextFormat => if Utf8.Valid(data) then Some(Text(data)) else None
    case RtfFormat => if Utf8.Valid(data) then Some(Rtf(data)) else None
    case HtmlFormat => if Utf8.Valid(data) then Some(Html(data)) else None
    case RgbaFormat => Some(Image(Rgba(FromI32(c.width), FromI32(c.height), data)))
    case PngFormat => Some(Image(Png(data)))
    case SvgFormat => Some(Image(Svg(if Utf8.Valid(data) then data else [])))
    case SpecialFormat => Some(Special(c.specialName, data))
    case OtherFormat => None
  }

  function CreateMulti(data: seq<Item>, compress: Codec): (r: seq<Clipboard>)
    ensures forall c :: c in r ==> InRange(c)
  {
    if data == [] then []
    else
      var rest := CreateMulti(data[1..], compress);
      match ToProto(data[0], compress)
      case None => rest
      case Some(c) => [c] + rest
  }

  ghost function FromMulti(clipboards: seq<Clipboard>, decompress: Codec): seq<Item>
    requires forall c :: c in clipboards ==> InRange(c)
  {
    if clipboards == [] then []
    else
      assert InRange(clipboards[0]);
      var rest := FromMulti(clipboards[1..], decompress);
      match FromProto(clipboards[0], decompress)
      case None => rest
      case Some(item) => [item] + rest
  }

  /** Strings are valid UTF-8 and image sides are machine words. */
  ghost predicate WellFormed(item: Item) {
    match item
    case Text(text) => Utf8.Valid(text)
    case Html(html) => Utf8.Valid(html)
    case Rtf(rtf) => Utf8.Valid(rtf)
    case Image(Svg(svg)) => Utf8.Valid(svg)
    case Image(Rgba(w, h, _)) => w < U64 && h < U64
    case _ => true
  }

  predicate SideSurvives(n: nat) {
    n < I32 || n >= U64 - I32
  }

  lemma SideTrip(n: nat)
    requires n < U64
    ensures FromI32(ToI32(n)) == n <==> SideSurvives(n)
  {
  }

  predicate Survives(item: Item) {
    item.Image? && item.image.Rgba? ==> SideSurvives(item.image.width) && SideSurvives(item.image.height)
  }

  /** The compress flag promises strictly fewer bytes, and no content is longer than the raw bytes. */
  lemma PackedIsShorter(raw: seq<Byte>, w: int, h: int, format: Format, name: seq<Byte>, compress: Codec, decompress: Codec)
    requires Inverts(decompress, compress)
    ensures var c := Packed(raw, w, h, format, name, compress);
            && (c.compress ==> |c.content| < |raw|) && |c.content| <= |raw|
            && (if c.compress then decompress(c.content) else c.content) == raw
  {
  }

  /** The bytes of an item before compression. */
  function Raw(item: Item): seq<Byte> {
    match item
    case Text(text) => text
    case Rtf(rtf) => rtf
    case Html(html) => html
    case Image(Rgba(_, _, pixels)) => pixels
    case Image(Png(png)) => png
    case Image(Svg(svg)) => svg
    case Special(_, data) => data
    case _ => []
  }

  /** Of the raw and the compressed bytes the fewer are sent, the raw ones where they tie; PNG images are never compressed. */
  lemma CompressedIsShorter(item: Item, compress: Codec)
    requires OnWire(item)
    ensures var raw, packed, c := Raw(item), compress(Raw(item)), ToProto(item, compress);
            && c.Some? && |c.value.content| <= |raw| && (c.value.compress <==> |c.value.content| < |raw|)
            && (c.value.compress <==> |packed| < |raw| && !(item.Image? && item.image.Png?))
            && c.value.content == if c.value.compress then packed else raw
  {
  }

  lemma ItemTrip(item: Item, compress: Codec, decompress: Codec)
    requires Inverts(decompress, compress) && WellFormed(item)
    ensures OnWire(item) <==> ToProto(item, compress).Some?
    ensures OnWire(item) ==>
              var back := FromProto(ToProto(item, compress).value, decompress);
              back.Some? && (back.value == item <==> Survives(item))
  {
    hide ToI32, FromI32, Inverts, Utf8.Valid;
    if item.Image? && item.image.Rgba? {
      SideTrip(item.image.width);
      SideTrip(item.image.height);
    }
    if OnWire(item) {
      var c := ToProto(item, compress).value;
      PackedIsShorter(Raw(item), c.width, c.height, c.format, c.specialName, compress, decompress);
    }
  }

  /** Encoding and decoding a list gives its wire kinds back exactly when every raw image side survives the 32-bit field. */
  lemma {:induction false} ListTrip(data: seq<Item>, compress: Codec, decompress: Codec)
    requires Inverts(decompress, compress)
    requires forall item :: item in data ==> WellFormed(item)
    ensures |FromMulti(CreateMulti(data, compress), decompress)| == |Keep(OnWire, data)|
    ensures FromMulti(CreateMulti(data, compress), decompress) == Keep(OnWire, data) <==>
            forall item :: item in data ==> Survives(item)
  {
    hide ToProto, FromProto, WellFormed, Survives, Inverts, OnWire, InRange;
    if data != [] {
      var item, rest := data[0], data[1..];
      assert data == [item] + rest;
      ListTrip(rest, compress, decompress);
      ItemTrip(item, compress, decompress);
      assert (forall x :: x in data ==> Survives(x)) <==> Survives(item) && forall x :: x in rest ==> Survives(x);
      if OnWire(item) {
        var c := ToProto(item, compress).value;
        assert CreateMulti(data, compress) == [c] + CreateMulti(rest, compress);
        FromMultiStep(c, CreateMulti(rest, compress), decompress);
        ConsEqual(FromProto(c, decompress).value, FromMulti(CreateMulti(rest, compress), decompress), item, Keep(OnWire, rest));
      } else {
        OffWireSurvives(item);
      }
    }
  }

  lemma FromMultiStep(c: Clipboard, rest: seq<Clipboard>, decompress: Codec)
    requires InRange(c) && forall x :: x in rest ==> InRange(x)
    requires FromProto(c, decompress).Some?
    ensures FromMulti([c] + rest, decompress) == [FromProto(c, decompress).value] + FromMulti(rest, decompress)
  {
    assert ([c] + rest)[1..] == rest;
  }

  lemma ConsEqual<T>(x: T, a: seq<T>, y: T, b: seq<T>)
    ensures [x] + a == [y] + b <==> x == y && a == b
  {
    if [x] + a == [y] + b {
      assert ([x] + a)[0] == ([y] + b)[0];
      assert a == ([x] + a)[1..] == ([y] + b)[1..] == b;
    }
  }

  lemma OffWireSurvives(item: Item)
    requires !OnWire(item)
    ensures Survives(item)
  {
  }

  // ---------- whatever is received ----------

  /** A received entry gives no item exactly if its kind is unknown, or it should be text and is not. */
  lemma DroppedIff(c: Clipboard, decompress: Codec)
    requires InRange(c)
    ensures var data := if c.compress then decompress(c.content) else c.content;
            FromProto(c, decompress).None? <==>
            c.format == OtherFormat || (c.format in {TextFormat, RtfFormat, HtmlFormat} && !Utf8.Valid(data))
  {
    hide Utf8.Valid;
  }

  /** What is received is of a transferable kind, its texts and vector images valid UTF-8, whatever the other side sent. */
  lemma {:induction false} ReceivedIsWellFormed(clipboards: seq<Clipboard>, decompress: Codec, item: Item)
    requires (forall c :: c in clipboards ==> InRange(c)) && item in FromMulti(clipboards, decompress)
    ensures OnWire(item) && WellFormed(item)
  {
    hide Utf8.Valid, OnWire, WellFormed, FromProto;
    assert InRange(clipboards[0]);
    if FromProto(clipboards[0], decompress) == Some(item) {
      OneIsWellFormed(clipboards[0], decompress);
    } else {
      ReceivedIsWellFormed(clipboards[1..], decompress, item);
    }
  }

  lemma OneIsWellFormed(c: Clipboard, decompress: Codec)
    requires InRange(c) && FromProto(c, decompress).Some?
    ensures var item := FromProto(c, decompress).value; OnWire(item) && WellFormed(item)
  {
    hide Utf8.Valid;
    EmptyIsValid();
  }

  lemma EmptyIsValid()
    ensures Utf8.Valid([])
  {
    assert Utf8.Encode("") == [];
  }

  /** The sides of a raw image go into the fields of their names, modulo 2^32; all other kinds leave them zero. */
  lemma SidesOnTheWire(item: Item, compress: Codec)
    requires OnWire(item)
    ensures var c := ToProto(item, compress);
            && c.Some? && InRange(c.value)
            && (if item.Image? && item.image.Rgba?
                then (c.value.width - item.image.width) % 0x1_0000_0000 == 0 &&
                     (c.value.height - item.image.height) % 0x1_0000_0000 == 0
                else c.value.width == 0 && c.value.height == 0)
            && c.value.specialName == if item.Special? then item.name else []
  {
    if item.Image? && item.image.Rgba? {
      LowBits(item.image.width);
      LowBits(item.image.height);
      hide ToI32;
    }
  }

  lemma LowBits(n: nat)
    ensures (ToI32(n) - n) % 0x1_0000_0000 == 0 && -I32 <= ToI32(n) < I32
  {
    var m := 0x1_0000_0000;
    assert n == m * (n / m) + n % m;
    assert (m * (-(n / m))) % m == 0;
    assert (m * (-(n / m) - 1)) % m == 0;
  }

  predicate AllInRange(clipboards: seq<Clipboard>) {
    forall c :: c in clipboards ==> InRange(c)
  }

  /** An entry that gives no item takes no other with it: each entry of a list gives what it gives by itself, in order. */
  lemma {:induction false} ReceivedInOrder(front: seq<Clipboard>, c: Clipboard, back: seq<Clipboard>, decompress: Codec)
    requires AllInRange(front) && InRange(c) && AllInRange(back)
    ensures AllInRange(front + [c] + back)
    ensures FromMulti(front + [c] + back, decompress) ==
            FromMulti(front, decompress)
            + (match FromProto(c, decompress) case Some(item) => [item] case None => [])
            + FromMulti(back, decompress)
  {
    hide FromProto, InRange;
    var all := front + [c] + back;
    assert AllInRange(all);
    if front == [] {
      assert all == [c] + back && all[0] == c && all[1..] == back;
    } else {
      ReceivedInOrder(front[1..], c, back, decompress);
      assert all[0] == front[0] && all[1..] == front[1..] + [c] + back;
    }
  }
}
