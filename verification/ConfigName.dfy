/**
 A server configuration carried in the name of an executable: printed by src/naming.rs,
 read back by src/custom_server.rs.
 */
module ConfigName {
  import opened Prelude
  import opened Text
  import Utf8
  import Base64Url

  datatype CustomServer = CustomServer(key: string, host: string, api: string, relay: string)

  // ---------- the printer ----------

  /** JSON string escapes as serde_json writes them. */
  function EscapeChar(c: char): (e: string)
    ensures c as int < 128 ==> Utf8.IsAscii(e)
  {
    if c == '\"' then "\\\""
    else if c == '\\' then "\\\\"
    else if c == '\n' then "\\n"
    else if c == '\r' then "\\r"
    else if c == '\t' then "\\t"
    else if c as int == 8 then "\\b"
    else if c as int == 12 then "\\f"
    else if c as int < 32 then "\\u00" + [if c as int < 16 then '0' else '1', HexDigit(c as int % 16)]
    else [c]
  }

  function HexDigit(d: int): char
    requires 0 <= d < 16
  {
    if d < 10 then ('0' as int + d) as char else ('a' as int + d - 10) as char
  }

  function Escape(s: string): string {
    if s == "" then "" else EscapeChar(s[0]) + Escape(s[1..])
  }

  function Member(name: string, value: string): string {
    "\"" + name + "\":\"" + Escape(value) + "\""
  }

  function Json(c: CustomServer): string {
    "{" + (Member("key", c.key) + "," + (Member("host", c.host) + "," + (Member("api", c.api) + ","
    + (Member("relay", c.relay) + "}"))))
  }

  function JsonBytes(c: CustomServer): seq<Byte> {
    Utf8.Encode(Json(c))
  }

  function GenName(c: CustomServer): string {
    Reverse(Base64Url.Encode(JsonBytes(c)))
  }

  // ---------- the reader ----------

  /** The two library calls: the JSON reader and the signature check against the built-in key. */
  datatype Libraries = Libraries(
    read: seq<Byte> -> Option<CustomServer>,
    verify: seq<Byte> -> Option<seq<Byte>>)

  predicate StartsLikeJson(data: seq<Byte>) {
    data != [] && data[0] in {0x7B, 0x5B, 0x20, 0x09, 0x0A, 0x0D}
  }

  const SIGNATURE_BYTES := 64

  /** The reader understands what the printer wrote, and neither call accepts what cannot be its input. */
  ghost predicate Faithful(libs: Libraries) {
    && (forall c :: libs.read(JsonBytes(c)) == Some(c))
    && (forall data :: libs.read(data).Some? ==> StartsLikeJson(data))
    && (forall data :: libs.verify(data).Some? ==> |data| >= SIGNATURE_BYTES)
  }

  function FromConfigString(libs: Libraries, s: string): Option<CustomServer> {
    match Base64Url.Decode(Reverse(s))
    case None => None
    case Some(data) =>
      match libs.read(data)
      case Some(c) => Some(c)
      case None =>
        match libs.verify(data)
        case None => None
        case Some(message) => libs.read(message)
  }

  predicate IsWhitespace(c: char) {
    var n := c as int;
    9 <= n <= 13 || n in {0x20, 0x85, 0xA0, 0x1680, 0x2028, 0x2029, 0x202F, 0x205F, 0x3000} || 0x2000 <= n <= 0x200A
  }

  function TrimStart(s: string): string {
    if s != "" && IsWhitespace(s[0]) then TrimStart(s[1..]) else s
  }

  function TrimEnd(s: string): string {
    if s != "" && IsWhitespace(s[|s| - 1]) then TrimEnd(s[..|s| - 1]) else s
  }

  function Trim(s: string): string {
    TrimEnd(TrimStart(s))
  }

  // ---------- lower-casing and byte positions ----------

  /** `str::to_lowercase`, character by character: one character may become several, of other lengths in UTF-8. */
  type Lowering = char -> string

  function Lower(lower: Lowering, s: string): string {
    if s == "" then "" else lower(s[0]) + Lower(lower, s[1..])
  }

  function ByteLen(s: string): nat {
    |Utf8.Encode(s)|
  }

  /** `&s[b..]`; slicing panics off the end and inside a character. */
  function FromByte(s: string, b: int): Option<string> {
    if b == 0 then Some(s)
    else if b < 0 || s == "" then None
    else FromByte(s[1..], b - |Utf8.EncodeChar(s[0])|)
  }

  /** `&s[..b]`. */
  function UpToByte(s: string, b: int): Option<string> {
    if b == 0 then Some("")
    else if b < 0 || s == "" then None
    else match UpToByte(s[1..], b - |Utf8.EncodeChar(s[0])|)
      case None => None
      case Some(t) => Some(s[..1] + t)
  }

  /** What a call ends in. */
  datatype Outcome = Parsed(config: CustomServer) | Rejected | Panicked

  function StripExe(lower: Lowering, s: string): Option<string> {
    if EndsWith(Lower(lower, s), ".exe.exe") then UpToByte(s, ByteLen(s) - 8)
    else if EndsWith(Lower(lower, s), ".exe") then UpToByte(s, ByteLen(s) - 4)
    else Some(s)
  }

  /** `chars().skip(n)`. */
  function Skip(s: string, n: nat): string {
    if n <= |s| then s[n..] else ""
  }

  /** The last element with the given prefix, without the prefix. */
  function LastField(lower: Lowering, els: seq<string>, prefix: string): string {
    if els == [] then ""
    else
      var el := els[|els| - 1];
      if prefix <= Lower(lower, el) then Skip(el, |prefix|) else LastField(lower, els[..|els| - 1], prefix)
  }

  function FromElements(lower: Lowering, els: seq<string>): CustomServer {
    CustomServer(LastField(lower, els, "key="), LastField(lower, els, "host="), LastField(lower, els, "api="),
                 LastField(lower, els, "relay="))
  }

  function TryParts(libs: Libraries, parts: seq<string>): Option<CustomServer> {
    if parts == [] then None
    else match FromConfigString(libs, Trim(parts[0]))
      case Some(c) => Some(c)
      case None => TryParts(libs, parts[1..])
  }

  function TryPiece(libs: Libraries, piece: string): Option<CustomServer> {
    match FromConfigString(libs, Trim(piece))
    case Some(c) => Some(c)
    case None => if Contains(piece, "(") then TryParts(libs, Split(piece, "(")) else None
  }

  function TryPieces(libs: Libraries, pieces: seq<string>): Option<CustomServer> {
    if pieces == [] then None
    else match TryPiece(libs, pieces[0])
      case Some(c) => Some(c)
      case None => TryPieces(libs, pieces[1..])
  }

  const LICENSED := "-licensed-"

  function Unlicensed(s: string): string {
    Replace(Replace(Replace(s, LICENSED + "--", "--"), LICENSED + "-", "--"), LICENSED, "--")
  }

  function Parse(libs: Libraries, lower: Lowering, name: string): Outcome {
    match StripExe(lower, name)
    case None => Panicked
    case Some(s) =>
      var low := Lower(lower, s);
      match Find(low, "host=")
      case Some(i) =>
        (match FromByte(s, ByteLen(low[..i]))
         case None => Panicked
         case Some(stripped) => Parsed(FromElements(lower, Split(stripped, ","))))
      case None =>
        match TryPieces(libs, Split(Unlicensed(s), "--"))
        case Some(c) => Parsed(c)
        case None => Rejected
  }

  /** The `host=` form: every element is looked at, and a later one overwrites an earlier one. */
  method ReadElements(lower: Lowering, els: seq<string>) returns (c: CustomServer)
    ensures c == FromElements(lower, els)
  {
    var host, key, api, relay := "", "", "", "";
    for n := 0 to |els|
      invariant CustomServer(key, host, api, relay) == FromElements(lower, els[..n])
    {
      var el, low := els[n], Lower(lower, els[n]);
      assert els[..n + 1][..n] == els[..n];
      if "host=" <= low { host := Skip(el, 5); }
      if "key=" <= low { key := Skip(el, 4); }
      if "api=" <= low { api := Skip(el, 4); }
      if "relay=" <= low { relay := Skip(el, 6); }
    }
    assert els[..|els|] == els;
    return CustomServer(key, host, api, relay);
  }

  method GetCustomServerFromString(libs: Libraries, lower: Lowering, name: string) returns (r: Outcome)
    ensures r == Parse(libs, lower, name)
  {
    var stripped := StripExe(lower, name);
    if stripped == None {
      return Panicked;
    }
    var s := stripped.value;
    var low := Lower(lower, s);
    match Find(low, "host=") {
      case Some(i) =>
        match FromByte(s, ByteLen(low[..i])) {
          case None => return Panicked;
          case Some(list) =>
            var c := ReadElements(lower, Split(list, ","));
            return Parsed(c);
        }
      case None =>
    }
    var pieces := Split(Unlicensed(s), "--");
    for n := 0 to |pieces|
      invariant TryPieces(libs, pieces) == TryPieces(libs, pieces[n..])
    {
      var piece := pieces[n];
      match FromConfigString(libs, Trim(piece)) {
        case Some(c) => return Parsed(c);
        case None =>
      }
      if Contains(piece, "(") {
        var parts := Split(piece, "(");
        for m := 0 to |parts|
          invariant TryParts(libs, parts) == TryParts(libs, parts[m..])
        {
          match FromConfigString(libs, Trim(parts[m])) {
            case Some(c) => return Parsed(c);
            case None =>
          }
        }
      }
    }
    return Rejected;
  }
}
