/** Clipboard items; texts and names are the bytes of their UTF-8 form. */
module ClipboardItems {
  import opened Prelude
  import opened Lists
  import Utf8

  datatype ImageData =
    | Rgba(width: nat, height: nat, pixels: seq<Byte>)
    | Png(png: seq<Byte>)
    | Svg(svg: seq<Byte>)

  datatype Item =
    | Unsupported
    | Text(text: seq<Byte>)
    | Html(html: seq<Byte>)
    | Rtf(rtf: seq<Byte>)
    | Image(image: ImageData)
    | Special(name: seq<Byte>, data: seq<Byte>)
    | FileUrl(urls: seq<seq<Byte>>)
    | NoData

  /** Which end of a connection this machine is. */
  datatype Side = Host | Client

  /** The bytes of "dyn.com.rustdesk.owner". */
  function OwnerFormat(): seq<Byte> {
    [100, 121, 110, 46, 99, 111, 109, 46, 114, 117, 115, 116, 100, 101, 115, 107, 46, 111, 119, 110, 101, 114]
  }

  /** The bytes of "XML Spreadsheet". */
  function ExcelFormat(): seq<Byte> {
    [88, 77, 76, 32, 83, 112, 114, 101, 97, 100, 115, 104, 101, 101, 116]
  }

  lemma FormatsSpelled()
    ensures OwnerFormat() == Utf8.Encode("dyn.com.rustdesk.owner") && ExcelFormat() == Utf8.Encode("XML Spreadsheet")
  {
    hide Utf8.Encode;
    Utf8.EncodeSpelled("dyn.com.rustdesk.owner", OwnerFormat());
    Utf8.EncodeSpelled("XML Spreadsheet", ExcelFormat());
  }

  function LowerByte(b: Byte): Byte {
    if 65 <= b <= 90 then b + 32 else b
  }

  predicate EqIgnoreAsciiCase(x: seq<Byte>, y: seq<Byte>) {
    |x| == |y| && forall i :: 0 <= i < |x| ==> LowerByte(x[i]) == LowerByte(y[i])
  }

  /** The marker that says which side of a connection wrote the clipboard. */
  predicate IsOwnerMarker(item: Item) {
    item.Special? && EqIgnoreAsciiCase(item.name, OwnerFormat())
  }

  /** Kinds that have a wire form. */
  predicate OnWire(item: Item) {
    item.Text? || item.Html? || item.Rtf? || item.Image? || item.Special?
  }

  predicate IsPayload(item: Item) {
    !IsOwnerMarker(item)
  }

  function WithoutMarkers(data: seq<Item>): seq<Item> {
    Keep(IsPayload, data)
  }

  lemma WithoutMarkersStep(data: seq<Item>)
    requires data != []
    ensures WithoutMarkers(data) ==
            if IsOwnerMarker(data[0]) then WithoutMarkers(data[1..]) else [data[0]] + WithoutMarkers(data[1..])
  {
    hide IsOwnerMarker;
  }

  // ---------- which items are markers ----------

  /** The same bytes, each letter small or capital. */
  predicate Spells(name: seq<Byte>, word: seq<Byte>) {
    |name| == |word| && forall i :: 0 <= i < |word| ==> IsLetter(name[i], word[i])
  }

  predicate IsLetter(b: Byte, c: Byte) {
    || b == c
    || ('a' as int <= c <= 'z' as int && b == c - 'a' as int + 'A' as int)
    || ('A' as int <= c <= 'Z' as int && b == c - 'A' as int + 'a' as int)
  }

  lemma SpellsIff(name: seq<Byte>, word: seq<Byte>)
    ensures EqIgnoreAsciiCase(word, name) <==> Spells(name, word)
    ensures EqIgnoreAsciiCase(name, word) <==> Spells(name, word)
  {
    if |name| == |word| {
      forall i | 0 <= i < |word| ensures LowerByte(name[i]) == LowerByte(word[i]) <==> IsLetter(name[i], word[i]) {
      }
    }
  }

  /** An item under any other name than the owner's, or of another kind. */
  predicate IsNoOwnerItem(item: Item) {
    !(item.Special? && Spells(item.name, OwnerFormat()))
  }

  lemma MarkerIff(item: Item)
    ensures IsOwnerMarker(item) <==> !IsNoOwnerItem(item)
  {
    if item.Special? {
      SpellsIff(item.name, OwnerFormat());
    }
  }

  /** Without markers: the items in their order, all but those under the owner's name in any mixture of cases. */
  lemma WithoutMarkersIs(data: seq<Item>)
    ensures WithoutMarkers(data) == Keep(IsNoOwnerItem, data)
    ensures forall item :: item in WithoutMarkers(data) <==>
                           item in data && !(item.Special? && Spells(item.name, OwnerFormat()))
  {
    hide IsOwnerMarker, IsNoOwnerItem, Spells;
    forall item | item in data ensures IsPayload(item) <==> IsNoOwnerItem(item) {
      MarkerIff(item);
    }
    KeepSame(IsPayload, IsNoOwnerItem, data);
    forall item ensures item in WithoutMarkers(data) <==> item in data && !(item.Special? && Spells(item.name, OwnerFormat())) {
      KeepMembers(IsPayload, data, item);
      MarkerIff(item);
      NoOwnerItemIs(item);
    }
  }

  lemma NoOwnerItemIs(item: Item)
    ensures IsNoOwnerItem(item) <==> !(item.Special? && Spells(item.name, OwnerFormat()))
  {
  }
}
