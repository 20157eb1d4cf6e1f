/** How clipboard format names and payloads are classified (src/clipboard.rs:34-107, 115-228, 453-497, 638-752). */
module FormatNames {
  import opened Prelude
  import opened ClipboardItems
  import Utf8

  type Name = seq<Byte>

  const X11_ATOMS: seq<string> := [
    "TARGETS", "SAVE_TARGETS", "TIMESTAMP", "MULTIPLE", "UTF8_STRING", "TEXT", "STRING", "COMPOUND_TEXT"]

  const TEXT_TYPES: seq<string> := [
    "HTML Format", "Rich Text Format", "text/richtext", "text/rtf", "text/html", "text/plain",
    "text/plain;charset=utf-8", "text/uri-list"]

  const IMAGE_TYPES: seq<string> := [
    "image/png", "image/tiff", "PNG", "image/svg+xml"]

  const APPLE_TYPES: seq<string> := [
    "public.utf8-plain-text", "public.text", "public.html", "public.rtf", "public.png", "public.tiff",
    "public.svg-image", "public.file-url"]

  const PASTEBOARD_TYPES: seq<string> := [
    "NSStringPboardType", "NSRTFPboardType", "NSHTMLPboardType", "NSFilenamesPboardType", "NSURLPboardType"]

  const BROWSER_TYPES: seq<string> := [
    "Chromium Web Custom MIME Data Format", "WebKit Smart Paste Format", "UniformResourceLocator",
    "UniformResourceLocatorW"]

  const HISTORY_FLAGS: seq<string> := [
    "DataObjectAttributes", "CanIncludeInClipboardHistory", "CanUploadToCloudClipboard"]

  const MONITOR_FLAGS: seq<string> := ["ExcludeClipboardContentFromMonitorProcessing"]

  const OWN_FORMATS: seq<string> := [
    "XML Spreadsheet", "dyn.com.rustdesk.owner"]

  /** Formats that are safe to read, in the order of the source. */
  const SAFE_FORMATS: seq<string> :=
    X11_ATOMS + TEXT_TYPES + IMAGE_TYPES + APPLE_TYPES + PASTEBOARD_TYPES + BROWSER_TYPES + HISTORY_FLAGS
    + MONITOR_FLAGS + OWN_FORMATS

  const OPAQUE_PATTERNS: seq<string> := [
    "adobe illustrator", "illustrator", "aicb", "ai private", "com.adobe", "portable document format",
    "application/pdf", "application/postscript", "application/eps", "application/vnd.adobe.illustrator",
    "application/x-adobe-illustrator", "pdf", "public.pdf", "public.eps", "public.postscript",
    "encapsulated postscript", "postscript", "eps"]

  const RISKY_PATTERNS: seq<string> := [
    "application/", "public.", "com.adobe", "org.inkscape", "gimp", "libreoffice"]

  const WINDOWS_OPAQUE: seq<string> := [
    "CF_HDROP", "CF_METAFILEPICT", "CF_TIFF", "CF_ENHMETAFILE", "DataObject", "Object Descriptor",
    "Ole Private Data", "Embed Source", "Embedded Object", "Link Source", "Link Source Descriptor", "Native",
    "OwnerLink", "System.Drawing.Bitmap"]

  const WINDOWS_TEXT: seq<string> := [
    "CF_UNICODETEXT", "CF_TEXT", "CF_OEMTEXT", "TEXT", "UTF8_STRING", "STRING", "HTML Format",
    "Rich Text Format", "text/plain", "text/plain;charset=utf-8", "text/html", "text/markdown"]

  const TEXT_WRAPPERS: seq<string> := ["DataObject", "Ole Private Data"]

  /** The name equals an entry of the table, ASCII case aside. */
  predicate Listed(table: seq<string>, name: Name) {
    exists i :: 0 <= i < |table| && EqIgnoreAsciiCase(Utf8.Encode(table[i]), name)
  }

  predicate MatchesAt(name: Name, k: nat, needle: Name) {
    k + |needle| <= |name| && EqIgnoreAsciiCase(name[k..k + |needle|], needle)
  }

  predicate ContainsIgnoreAsciiCase(name: Name, needle: Name) {
    exists k: nat | 0 <= k <= |name| :: MatchesAt(name, k, needle)
  }

  /** The name contains an entry of the table, ASCII case aside. */
  predicate Mentions(table: seq<string>, name: Name) {
    exists i :: 0 <= i < |table| && ContainsIgnoreAsciiCase(name, Utf8.Encode(table[i]))
  }

  predicate IsOpaqueNative(name: Name) {
    Mentions(OPAQUE_PATTERNS, name)
  }

  /** The bytes of "format#". */
  function NumberedFormat(): Name {
    [102, 111, 114, 109, 97, 116, 35]
  }

  predicate IsWindowsOpaque(name: Name) {
    NumberedFormat() <= name || Listed(WINDOWS_OPAQUE, name) || IsOpaqueNative(name)
  }

  predicate IsRisky(name: Name) {
    !Listed(SAFE_FORMATS, name) && Mentions(RISKY_PATTERNS, name)
  }

  predicate ShouldPreserve(name: Name) {
    IsOpaqueNative(name) || IsRisky(name)
  }

  datatype BlockReason = Unblocked | OpaqueNative | UnknownSpecial | UnsupportedItem

  function NameBlockReason(name: Name): BlockReason {
    if EqIgnoreAsciiCase(name, ExcelFormat()) || EqIgnoreAsciiCase(name, OwnerFormat()) then Unblocked
    else if IsWindowsOpaque(name) || ShouldPreserve(name) then OpaqueNative
    else UnknownSpecial
  }

  function ItemBlockReason(item: Item): BlockReason {
    match item
    case Special(name, _) => NameBlockReason(name)
    case Unsupported => UnsupportedItem
    case NoData => UnsupportedItem
    case _ => Unblocked
  }

  /** The first reason found. */
  function DataBlockReason(data: seq<Item>): BlockReason {
    if data == [] then Unblocked
    else if !ItemBlockReason(data[0]).Unblocked? then ItemBlockReason(data[0])
    else DataBlockReason(data[1..])
  }

  method FindBlockReason(data: seq<Item>) returns (r: BlockReason)
    ensures r == DataBlockReason(data)
  {
    hide ItemBlockReason;
    for i := 0 to |data|
      invariant DataBlockReason(data[i..]) == DataBlockReason(data)
    {
      assert data[i..][0] == data[i] && data[i..][1..] == data[i + 1..];
      var reason := ItemBlockReason(data[i]);
      if !reason.Unblocked? {
        return reason;
      }
    }
    return Unblocked;
  }

  lemma {:induction false} UnblockedIff(data: seq<Item>)
    ensures DataBlockReason(data).Unblocked? <==> forall item :: item in data ==> ItemBlockReason(item).Unblocked?
  {
    hide ItemBlockReason;
    if data != [] {
      UnblockedIff(data[1..]);
      assert data == [data[0]] + data[1..];
    }
  }

  datatype Policy = Both | LocalToRemote | RemoteToLocal | Off

  predicate AllowsRemoteToLocal(policy: Policy) {
    policy.Both? || policy.RemoteToLocal?
  }

  /** An update may go on: direction and payload both permit it. */
  predicate Allowed(policy: Policy, data: seq<Item>) {
    AllowsRemoteToLocal(policy) && DataBlockReason(data).Unblocked?
  }

  // ---------- the same by letters ----------

  /** Letter for letter, an entry of the table. */
  predicate Spelled(table: seq<string>, name: Name) {
    exists i :: 0 <= i < |table| && Spells(name, Utf8.Encode(table[i]))
  }

  /** Letter for letter, an entry of the table stands somewhere in the name. */
  ghost predicate SpelledInside(table: seq<string>, name: Name) {
    exists i :: 0 <= i < |table| && StandsIn(Utf8.Encode(table[i]), name)
  }

  ghost predicate StandsIn(word: Name, name: Name) {
    exists front, middle, back :: name == front + middle + back && Spells(middle, word)
  }

  lemma ListedIff(table: seq<string>, name: Name)
    ensures Listed(table, name) <==> Spelled(table, name)
  {
    hide EqIgnoreAsciiCase, Spells, Utf8.Encode;
    forall i | 0 <= i < |table|
      ensures EqIgnoreAsciiCase(Utf8.Encode(table[i]), name) <==> Spells(name, Utf8.Encode(table[i]))
    {
      SpellsIff(name, Utf8.Encode(table[i]));
    }
  }

  lemma StandsInIff(word: Name, name: Name)
    ensures ContainsIgnoreAsciiCase(name, word) <==> StandsIn(word, name)
  {
    hide EqIgnoreAsciiCase;
    if k: nat :| k <= |name| && MatchesAt(name, k, word) {
      var middle := name[k..k + |word|];
      SpellsIff(middle, word);
      assert name == name[..k] + middle + name[k + |word|..];
    }
    if front, middle, back :| name == front + middle + back && Spells(middle, word) {
      SpellsIff(middle, word);
      assert name[|front|..|front| + |word|] == middle;
      assert MatchesAt(name, |front|, word);
    }
  }

  lemma MentionsIff(table: seq<string>, name: Name)
    ensures Mentions(table, name) <==> SpelledInside(table, name)
  {
    hide ContainsIgnoreAsciiCase, StandsIn, Utf8.Encode;
    forall i | 0 <= i < |table|
      ensures ContainsIgnoreAsciiCase(name, Utf8.Encode(table[i])) <==> StandsIn(Utf8.Encode(table[i]), name)
    {
      StandsInIff(Utf8.Encode(table[i]), name);
    }
  }

  /** A name is preserved if a native format stands in it, or a risky one does and it is not itself a safe format. */
  lemma ShouldPreserveIff(name: Name)
    ensures ShouldPreserve(name) <==>
            || SpelledInside(OPAQUE_PATTERNS, name)
            || (SpelledInside(RISKY_PATTERNS, name) && !Spelled(SAFE_FORMATS, name))
  {
    hide Listed, Mentions, Spelled, SpelledInside;
    MentionsIff(OPAQUE_PATTERNS, name);
    MentionsIff(RISKY_PATTERNS, name);
    ListedIff(SAFE_FORMATS, name);
  }

  /** A name is opaque on Windows if it is numbered, listed as such, or a native format stands in it. */
  lemma IsWindowsOpaqueIff(name: Name)
    ensures IsWindowsOpaque(name) <==>
            || (|name| >= 7 && name[..7] == Utf8.Encode("format#"))
            || Spelled(WINDOWS_OPAQUE, name)
            || SpelledInside(OPAQUE_PATTERNS, name)
  {
    hide Listed, Mentions, Spelled, SpelledInside, Utf8.Encode;
    Utf8.EncodeSpelled("format#", NumberedFormat());
    MentionsIff(OPAQUE_PATTERNS, name);
    ListedIff(WINDOWS_OPAQUE, name);
  }

  // ---------- what may be written ----------

  /** Items of the kinds that are always written, spreadsheets and owner markers. */
  predicate MayBeWritten(item: Item) {
    match item
    case Special(name, _) => Spells(name, ExcelFormat()) || Spells(name, OwnerFormat())
    case Unsupported => false
    case NoData => false
    case Text(_) => true
    case Html(_) => true
    case Rtf(_) => true
    case Image(_) => true
    case FileUrl(_) => true
  }

  lemma ItemPasses(item: Item)
    ensures ItemBlockReason(item).Unblocked? <==> MayBeWritten(item)
    ensures ItemBlockReason(item).UnsupportedItem? <==> item.Unsupported? || item.NoData?
    ensures item.Special? && !MayBeWritten(item) ==>
              (ItemBlockReason(item).OpaqueNative? <==> IsWindowsOpaque(item.name) || ShouldPreserve(item.name))
  {
    hide EqIgnoreAsciiCase, Spells, IsWindowsOpaque, ShouldPreserve, ExcelFormat, OwnerFormat;
    if item.Special? {
      SpellsIff(item.name, ExcelFormat());
      SpellsIff(item.name, OwnerFormat());
    }
  }

  /** A payload passes exactly if every item may be written. */
  lemma PayloadPassesIff(data: seq<Item>)
    ensures DataBlockReason(data).Unblocked? <==> forall item :: item in data ==> MayBeWritten(item)
  {
    hide ItemBlockReason, MayBeWritten;
    UnblockedIff(data);
    forall item | item in data ensures ItemBlockReason(item).Unblocked? <==> MayBeWritten(item) {
      ItemPasses(item);
    }
  }

  /** The first item that may not be written gives the reason. */
  lemma {:induction false} FirstGivesReason(data: seq<Item>, i: nat)
    requires i < |data| && !MayBeWritten(data[i]) && forall j :: 0 <= j < i ==> MayBeWritten(data[j])
    ensures DataBlockReason(data) == ItemBlockReason(data[i])
  {
    hide ItemBlockReason, MayBeWritten;
    ItemPasses(data[0]);
    if i > 0 {
      FirstGivesReason(data[1..], i - 1);
    }
  }

  /** Directions in which updates from the other side are let in. */
  lemma PolicyAllowsIff(policy: Policy, data: seq<Item>)
    ensures Allowed(policy, data) <==>
            policy in {Both, RemoteToLocal} && forall item :: item in data ==> MayBeWritten(item)
  {
    hide DataBlockReason, MayBeWritten;
    PayloadPassesIff(data);
  }
}
