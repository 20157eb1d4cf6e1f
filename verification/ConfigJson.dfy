/** The printed JSON determines the configuration, so a reader that undoes the printer can exist. */
module ConfigJson {
  import opened Prelude
  import opened ConfigName
  import ConfigRoundTrip
  import Utf8

  // ---------- strings ----------

  lemma EscapeStarts(c: char)
    ensures EscapeChar(c) != "" && EscapeChar(c)[0] != '\"'
    ensures EscapeChar(c)[0] == '\\' || EscapeChar(c) == [c]
  {
  }

  lemma EscapeCharUnique(a: char, x: string, b: char, y: string)
    requires EscapeChar(a) + x == EscapeChar(b) + y
    ensures a == b && x == y
  {
    var s, t := EscapeChar(a) + x, EscapeChar(b) + y;
    assert s[0] == t[0];
    assert |EscapeChar(a)| > 1 ==> s[1] == EscapeChar(a)[1];
    assert |EscapeChar(b)| > 1 ==> t[1] == EscapeChar(b)[1];
    assert |EscapeChar(a)| > 5 ==> s[4] == EscapeChar(a)[4] && s[5] == EscapeChar(a)[5];
    assert |EscapeChar(b)| > 5 ==> t[4] == EscapeChar(b)[4] && t[5] == EscapeChar(b)[5];
    assert a == b;
    assert x == s[|EscapeChar(a)|..] && y == t[|EscapeChar(b)|..];
  }

  /** A closing quote ends the string it closes. */
  lemma {:induction false} EscapeUnique(s: string, u: string, t: string, v: string)
    requires Escape(s) + ("\"" + u) == Escape(t) + ("\"" + v)
    ensures s == t && u == v
  {
    hide EscapeChar;
    var x, y := Escape(s) + ("\"" + u), Escape(t) + ("\"" + v);
    if s != "" {
      EscapeStarts(s[0]);
      assert x[0] == EscapeChar(s[0])[0];
    }
    if t != "" {
      EscapeStarts(t[0]);
      assert y[0] == EscapeChar(t[0])[0];
    }
    assert s == "" <==> t == "";
    if s == "" {
      assert u == x[1..] && v == y[1..];
    } else {
      assert x == EscapeChar(s[0]) + (Escape(s[1..]) + ("\"" + u));
      assert y == EscapeChar(t[0]) + (Escape(t[1..]) + ("\"" + v));
      EscapeCharUnique(s[0], Escape(s[1..]) + ("\"" + u), t[0], Escape(t[1..]) + ("\"" + v));
      EscapeUnique(s[1..], u, t[1..], v);
      assert s == [s[0]] + s[1..] && t == [t[0]] + t[1..];
    }
  }

  lemma MemberUnique(name: string, s: string, u: string, t: string, v: string)
    requires Member(name, s) + u == Member(name, t) + v
    ensures s == t && u == v
  {
    hide Escape;
    var head := "\"" + name + "\":\"";
    assert Member(name, s) + u == head + (Escape(s) + ("\"" + u));
    assert Member(name, t) + v == head + (Escape(t) + ("\"" + v));
    assert Escape(s) + ("\"" + u) == (Member(name, s) + u)[|head|..];
    assert Escape(t) + ("\"" + v) == (Member(name, t) + v)[|head|..];
    EscapeUnique(s, u, t, v);
  }

  lemma DropHead(head: string, u: string, v: string)
    requires head + u == head + v
    ensures u == v
  {
    assert u == (head + u)[|head|..] && v == (head + v)[|head|..];
  }

  lemma JsonShape(c: CustomServer)
    ensures var api := Member("api", c.api) + ("," + (Member("relay", c.relay) + "}"));
            Json(c) == "{" + (Member("key", c.key) + ("," + (Member("host", c.host) + ("," + api))))
  {
    hide Member;
    var relay := Member("relay", c.relay) + "}";
    assert Member("api", c.api) + "," + relay == Member("api", c.api) + ("," + relay);
    var api := Member("api", c.api) + ("," + relay);
    assert Member("host", c.host) + "," + api == Member("host", c.host) + ("," + api);
    var host := Member("host", c.host) + ("," + api);
    assert Member("key", c.key) + "," + host == Member("key", c.key) + ("," + host);
  }

  /** Different configurations are printed differently. */
  lemma JsonInjective(c: CustomServer, d: CustomServer)
    requires JsonBytes(c) == JsonBytes(d)
    ensures c == d
  {
    hide Utf8.Encode, Member;
    Utf8.EncodeInjective(Json(c), Json(d));
    JsonShape(c);
    JsonShape(d);
    var c3, d3 := Member("relay", c.relay) + "}", Member("relay", d.relay) + "}";
    var c2, d2 := Member("api", c.api) + ("," + c3), Member("api", d.api) + ("," + d3);
    var c1, d1 := Member("host", c.host) + ("," + c2), Member("host", d.host) + ("," + d2);
    DropHead("{", Member("key", c.key) + ("," + c1), Member("key", d.key) + ("," + d1));
    MemberUnique("key", c.key, "," + c1, d.key, "," + d1);
    DropHead(",", c1, d1);
    MemberUnique("host", c.host, "," + c2, d.host, "," + d2);
    DropHead(",", c2, d2);
    MemberUnique("api", c.api, "," + c3, d.api, "," + d3);
    DropHead(",", c3, d3);
    MemberUnique("relay", c.relay, "}", d.relay, "}");
  }

  /** So library calls as the round trips assume them are possible. */
  lemma FaithfulLibrariesExist()
    ensures exists libs :: Faithful(libs)
  {
    hide JsonBytes;
    var read: seq<Byte> -> Option<CustomServer> :=
      data => if c: CustomServer :| JsonBytes(c) == data then Some(c) else None;
    var libs := Libraries(read, data => None);
    forall c ensures libs.read(JsonBytes(c)) == Some(c) {
      forall d | JsonBytes(d) == JsonBytes(c) ensures d == c {
        JsonInjective(d, c);
      }
    }
    forall data | libs.read(data).Some? ensures StartsLikeJson(data) {
      var c :| JsonBytes(c) == data;
      ConfigRoundTrip.JsonEnds(c);
    }
    assert Faithful(libs);
  }

  // ---------- what the escapes mean ----------

  predicate IsHexDigit(c: char) {
    '0' <= c <= '9' || 'a' <= c <= 'f'
  }

  function HexValue(c: char): int {
    if '0' <= c <= '9' then c as int - '0' as int else c as int - 'a' as int + 10
  }

  /** The code that one character or escape of a JSON string stands for, section 7 of RFC 8259. */
  function Unescaped(e: string): int
    requires |e| in {1, 2, 6}
  {
    if |e| == 1 then e[0] as int
    else if |e| == 6 then 0x1000 * HexValue(e[2]) + 0x100 * HexValue(e[3]) + 0x10 * HexValue(e[4]) + HexValue(e[5])
    else match e[1]
      case 'b' => 8
      case 't' => 9
      case 'n' => 10
      case 'f' => 12
      case 'r' => 13
      case c => c as int
  }

  /** Quotes, backslashes and control characters are escaped, in the short form where JSON has one; nothing else is. */
  lemma EscapeMeans(c: char)
    ensures var n, e := c as int, EscapeChar(c);
            && |e| == (if n in {0x22, 0x5C, 8, 9, 10, 12, 13} then 2 else if n < 0x20 then 6 else 1)
            && (|e| > 1 ==> e[0] == '\\') && (|e| == 6 ==> e[1] == 'u' && forall i :: 2 <= i < 6 ==> IsHexDigit(e[i]))
            && Unescaped(e) == n
  {
  }
}
