/**
 Reading a generated executable name gives the configuration back.

 `-` is both a separator character and a base64url digit, so this rests on where `-` can occur in a
 generated name: never twice in a row and never nine characters apart, when the fields are ASCII.
 */
module ConfigRoundTrip {
  import opened Prelude
  import opened Lists
  import opened Text
  import opened ConfigName
  import opened ConfigLowering
  import Utf8
  import Base64Url

  // ---------- the shape of a generated name ----------

  /** Neither separator occurs in the name; ConfigTried shows that this is what reading it back depends on. */
  predicate IsClean(n: string) {
    !Contains(n, "--") && !Contains(n, LICENSED)
  }

  ghost predicate InAlphabet(s: string) {
    forall i :: 0 <= i < |s| ==> Base64Url.Value(s[i]).Some?
  }

  /** What every generated name is like. */
  ghost predicate IsNameShaped(n: string) {
    n != "" && InAlphabet(n) && n[0] in "9Q0" && n[|n| - 1] == 'e'
  }

  /** The text is no part of a separator, neither with one in front of it nor with one behind. */
  predicate IsClear(n: string) {
    && n != "" && n[0] != '-' && !("licensed-" <= n)
    && n[|n| - 1] != '-' && !EndsWith("-" + n, "-licensed")
  }

  /** A text of base64url digits that can stand between separators. */
  ghost predicate IsText(n: string) {
    InAlphabet(n) && IsClear(n)
  }

  lemma ShapedIsText(n: string)
    requires IsNameShaped(n)
    ensures IsText(n)
  {
    var s := "-" + n;
    assert s[|s| - 1] == 'e';
    assert "licensed-"[0] == 'l';
  }

  lemma NameShape(c: CustomServer)
    ensures IsNameShaped(GenName(c))
  {
    hide JsonBytes, Base64Url.Encode;
    JsonEnds(c);
    EncodedEnds(JsonBytes(c));
    var e := Base64Url.Encode(JsonBytes(c));
    var n := GenName(c);
    forall i | 0 <= i < |n| ensures Base64Url.Value(n[i]).Some? {
      assert n[i] == e[|n| - 1 - i];
    }
  }

  /** The encoding of what starts with `{` and ends with `"}`. */
  lemma EncodedEnds(b: seq<Byte>)
    requires |b| >= 3 && b[0] == 0x7B && b[|b| - 2] == 0x22 && b[|b| - 1] == 0x7D
    ensures var e := Base64Url.Encode(b);
            e != "" && InAlphabet(e) && e[0] == 'e' && e[|e| - 1] in "9Q0"
  {
    var d := Base64Url.Sextets(b);
    Base64Url.LastSextet(b, 0x22, 0x7D);
    assert d[0] == Base64Url.High(0x7B) == 30;
    hide Base64Url.Sextets;
    var e := Base64Url.Encode(b);
    assert e[0] == Base64Url.Digit(30) == 'e';
    assert e[|e| - 1] == Base64Url.Digit(d[|d| - 1]);
    forall i | 0 <= i < |e| ensures Base64Url.Value(e[i]).Some? {
      Base64Url.DigitHasValue(d[i]);
    }
  }

  /** Every printed configuration starts with `{` and ends with `"}`. */
  lemma JsonEnds(c: CustomServer)
    ensures var b := JsonBytes(c); |b| >= 3 && b[0] == 0x7B && b[|b| - 2] == 0x22 && b[|b| - 1] == 0x7D
  {
    var u := JsonFrame(c);
    Utf8.EncodeConcat("{" + u, "\"}");
    Utf8.EncodeConcat("{", u);
    Utf8.EncodeAscii("\"}");
    Utf8.EncodeAscii("{");
    var head, tail := Utf8.Encode("{" + u), Utf8.Encode("\"}");
    assert head[0] == 0x7B && tail == [0x22, 0x7D];
  }

  lemma JsonFrame(c: CustomServer) returns (u: string)
    ensures Json(c) == ("{" + u) + "\"}"
  {
    hide Escape;
    var inner := Json(c)[1..];
    var m := Member("relay", c.relay);
    assert m == m[..|m| - 1] + "\"";
    u := inner[..|inner| - 2];
    assert inner[|inner| - 2..] == "\"}";
    assert inner == u + "\"}";
  }

  predicate IsAsciiConfig(c: CustomServer) {
    Utf8.IsAscii(c.key) && Utf8.IsAscii(c.host) && Utf8.IsAscii(c.api) && Utf8.IsAscii(c.relay)
  }

  lemma {:induction false} EscapeAscii(s: string)
    requires Utf8.IsAscii(s)
    ensures Utf8.IsAscii(Escape(s))
  {
    hide EscapeChar;
    if s != "" {
      EscapeAscii(s[1..]);
    }
  }

  lemma MemberAscii(name: string, value: string)
    requires Utf8.IsAscii(name) && Utf8.IsAscii(value)
    ensures Utf8.IsAscii(Member(name, value))
  {
    EscapeAscii(value);
    Utf8.AsciiConcat("\"", name);
    Utf8.AsciiConcat("\"" + name, "\":\"");
    Utf8.AsciiConcat("\"" + name + "\":\"", Escape(value));
    Utf8.AsciiConcat("\"" + name + "\":\"" + Escape(value), "\"");
  }

  lemma JsonAscii(c: CustomServer)
    requires IsAsciiConfig(c)
    ensures Utf8.IsAscii(Json(c))
  {
    hide Member;
    MemberAscii("key", c.key);
    MemberAscii("host", c.host);
    MemberAscii("api", c.api);
    MemberAscii("relay", c.relay);
    var m4 := Member("relay", c.relay) + "}";
    Utf8.AsciiConcat(Member("relay", c.relay), "}");
    var m3 := Listed(Member("api", c.api), m4);
    var m2 := Listed(Member("host", c.host), m3);
    var m1 := Listed(Member("key", c.key), m2);
    Utf8.AsciiConcat("{", m1);
  }

  lemma Listed(m: string, rest: string) returns (s: string)
    requires Utf8.IsAscii(m) && Utf8.IsAscii(rest)
    ensures s == m + "," + rest && Utf8.IsAscii(s)
  {
    Utf8.AsciiConcat(m, ",");
    Utf8.AsciiConcat(m + ",", rest);
    s := m + "," + rest;
  }

  lemma HyphenSextet(c: CustomServer, i: nat)
    requires i < |GenName(c)| && GenName(c)[i] == '-'
    ensures var d := Base64Url.Sextets(JsonBytes(c));
            |d| == |GenName(c)| && d[|d| - 1 - i] == Base64Url.HYPHEN
  {
    hide JsonBytes;
  }

  /** In the name of an ASCII configuration any two hyphens are a multiple of four apart. */
  lemma HyphensFourApart(c: CustomServer, i: nat, j: nat)
    requires IsAsciiConfig(c) && i < j < |GenName(c)| && GenName(c)[i] == '-' == GenName(c)[j]
    ensures (j - i) % 4 == 0
  {
    hide Json, GenName, Base64Url.Sextets;
    var b := JsonBytes(c);
    JsonAscii(c);
    Utf8.EncodeAscii(Json(c));
    HyphenSextet(c, i);
    HyphenSextet(c, j);
    var last := |GenName(c)| - 1;
    Base64Url.HyphenPositions(b, last - i);
    Base64Url.HyphenPositions(b, last - j);
  }

  /** So the name of an ASCII configuration is clean. */
  lemma AsciiNamesAreClean(c: CustomServer)
    requires IsAsciiConfig(c)
    ensures IsClean(GenName(c))
  {
    var n := GenName(c);
    if Contains(n, "--") {
      var i := WhereContained(n, "--");
      AtChar(n, "--", i, 0);
      AtChar(n, "--", i, 1);
      HyphensFourApart(c, i, i + 1);
    }
    if Contains(n, LICENSED) {
      var i := WhereContained(n, LICENSED);
      AtChar(n, LICENSED, i, 0);
      AtChar(n, LICENSED, i, 9);
      HyphensFourApart(c, i, i + 9);
    }
  }

  // ---------- what follows the name ----------

  /** A mark that a file manager puts behind the name of a duplicate: `(1)` or ` (1)`. */
  datatype Copy = Copy(spaced: bool, number: string)

  function Marks(copies: seq<Copy>): string {
    if copies == [] then ""
    else (if copies[0].spaced then " (" else "(") + copies[0].number + ")" + Marks(copies[1..])
  }

  predicate AreNumbered(copies: seq<Copy>) {
    forall i, k :: 0 <= i < |copies| && 0 <= k < |copies[i].number| ==> '0' <= copies[i].number[k] <= '9'
  }

  predicate IsMarkChar(c: char) {
    c == ' ' || c == '(' || c == ')' || '0' <= c <= '9'
  }

  lemma {:induction false} MarksChars(copies: seq<Copy>)
    requires AreNumbered(copies)
    ensures forall i :: 0 <= i < |Marks(copies)| ==> IsMarkChar(Marks(copies)[i])
  {
    if copies != [] {
      MarksChars(copies[1..]);
      var v := MarksBegin(copies);
    }
  }

  lemma MarksBegin(copies: seq<Copy>) returns (v: string)
    requires copies != []
    ensures v == copies[0].number + ")" + Marks(copies[1..])
    ensures Marks(copies) == (if copies[0].spaced then " " else "") + ("(" + v)
  {
    v := copies[0].number + ")" + Marks(copies[1..]);
    assert " (" == " " + "(";
  }

  lemma MarksShape(copies: seq<Copy>)
    requires AreNumbered(copies)
    ensures forall i :: 0 <= i < |Marks(copies)| ==> IsMarkChar(Marks(copies)[i])
    ensures Marks(copies) != "" ==> Marks(copies)[0] in " ("
  {
    MarksChars(copies);
    if copies != [] {
      var v := MarksBegin(copies);
    }
  }

  lemma {:induction false} MarksEnd(copies: seq<Copy>)
    requires copies != []
    ensures Marks(copies) != "" && Marks(copies)[|Marks(copies)| - 1] == ')'
  {
    var m := Marks(copies);
    if |copies| > 1 {
      MarksEnd(copies[1..]);
      assert m[|m| - |Marks(copies[1..])|..] == Marks(copies[1..]);
    }
  }

  /** Nothing, or something that begins with the separator. */
  predicate IsTail(t: string) {
    t == "" || "--" <= t
  }

  // ---------- removing `.exe` ----------

  lemma LowerKeeps(s: string, i: nat)
    requires i < |s|
    ensures s[i] in "-.=" ==> ToLower(s)[i] == s[i]
    ensures ToLower(s)[i] in "-.=" ==> ToLower(s)[i] == s[i]
  {
  }

  predicate IsExtension(ext: string) {
    ToLower(ext) in ["", ".exe", ".exe.exe"]
  }

  lemma StripKeepsHead(head: string, tail: string, ext: string) returns (more: string)
    requires '.' !in head && IsTail(tail) && IsExtension(ext)
    ensures Stem(head + (tail + ext)) == head + more
    ensures more <= tail && IsTail(more)
  {
    hide Stem, ToLower, IsExtension;
    var s := head + (tail + ext);
    var kept := Stem(s);
    ExtensionGoes(head + tail, ext);
    assert s == head + tail + ext;
    if |kept| < |s| {
      StripsAtDot(s);
    }
    assert |kept| >= |head|;
    more := kept[|head|..];
    assert kept == head + more;
    assert more <= tail;
  }

  /** What is removed starts with a dot. */
  lemma StripsAtDot(s: string)
    requires |Stem(s)| < |s|
    ensures s[|Stem(s)|] == '.' && Stem(s) <= s
  {
    var low, i := ToLower(s), |Stem(s)|;
    assert low[i..][0] == '.';
    LowerKeeps(s, i);
  }

  /** At least the extension is removed. */
  lemma ExtensionGoes(s: string, ext: string)
    requires IsExtension(ext)
    ensures Stem(s + ext) <= s
  {
    var low := ToLower(s + ext);
    assert low[|s|..] == ToLower(ext);
    assert |ext| == 4 ==> EndsWith(low, ".exe");
    assert |ext| == 8 ==> EndsWith(low, ".exe.exe");
    assert Stem(s + ext) <= s + ext;
    assert |Stem(s + ext)| <= |s|;
  }

  // ---------- no `host=` ----------

  lemma HostMoves(head: string, more: string, tail: string, i: nat)
    requires |head| <= i && more <= tail && At(ToLower(head + more), HOST, i)
    ensures At(ToLower(tail), HOST, i - |head|)
  {
    hide ToLower;
    forall k | 0 <= k < |HOST| ensures i - |head| + k < |tail| && ToLower(tail)[i - |head| + k] == HOST[k] {
      AtChar(ToLower(head + more), HOST, i, k);
    }
  }

  lemma NoHost(head: string, more: string, tail: string)
    requires '=' !in head && IsTail(more) && more <= tail && !Contains(ToLower(tail), HOST)
    ensures !Contains(ToLower(head + more), HOST)
  {
    hide ToLower, Contains;
    var s := head + more;
    var low := ToLower(s);
    if Contains(low, HOST) {
      var i := WhereContained(low, HOST);
      AtChar(low, HOST, i, 4);
      LowerKeeps(s, i + 4);
      assert |head| + 2 <= i + 4;
      if i < |head| + 2 {
        AtChar(low, HOST, i, |head| + 1 - i);
        LowerKeeps(s, |head| + 1);
      }
      HostMoves(head, more, tail, i);
      ContainsAt(ToLower(tail), HOST, i - |head|);
    }
  }

  // ---------- `-licensed-` becomes `--` ----------

  /** One of the three patterns the parser rewrites. */
  predicate IsLicense(l: string) {
    l == LICENSED || l == LICENSED + "-" || l == LICENSED + "--"
  }

  lemma LicenseChars(l: string)
    requires IsLicense(l)
    ensures |l| >= 10 && LICENSED <= l && l[0] == '-' && l[1] == 'l' && l[5] == 'n' && l[8] == 'd'
    ensures forall d :: 0 <= d < 9 && l[d] == 'e' ==> d == 4 || d == 7
    ensures forall d :: 10 <= d < |l| ==> l[d] == '-'
    ensures forall d :: 0 < d < 9 ==> l[d] != '-'
  {
  }

  /** A clean name with its marks, followed by a tail, hides no pattern: none begins inside it. */
  lemma LicenseNotInBody(n: string, marks: string, more: string, l: string)
    requires IsText(n) && !Contains(n, LICENSED) && IsLicense(l) && IsTail(more)
    requires forall i :: 0 <= i < |marks| ==> IsMarkChar(marks[i])
    requires marks != "" ==> marks[0] in " ("
    ensures NoneStarts(n + marks, more, l)
  {
    forall k | 0 <= k < |n + marks| ensures !At(n + marks + more, l, k) {
      assert n + marks + more == n + (marks + more);
      LicenseNotAt(n, marks, more, l, k);
    }
  }

  lemma LicenseNotAt(n: string, marks: string, more: string, l: string, k: nat)
    requires IsText(n) && !Contains(n, LICENSED) && IsLicense(l) && IsTail(more)
    requires forall i :: 0 <= i < |marks| ==> IsMarkChar(marks[i])
    requires marks != "" ==> marks[0] in " ("
    requires k < |n + marks|
    ensures !At(n + (marks + more), l, k)
  {
    hide IsLicense, Contains, InAlphabet, IsClear;
    var s := n + (marks + more);
    LicenseChars(l);
    if k >= |n| {
      assert s[k] == marks[k - |n|];
      NotAt(s, l, k, 0);
    } else if marks != "" && |n| < k + |l| {
      assert s[|n|] == marks[0];
      assert l[|n| - k] !in " (";
      NotAt(s, l, k, |n| - k);
    } else if k + 10 <= |n| {
      if At(s, l, k) {
        assert At(s, LICENSED, k);
        AtLeft(n, marks + more, LICENSED, k);
        ContainsAt(n, LICENSED, k);
      }
    } else {
      StraddlesNot(n, marks + more, l, k);
    }
  }

  /** A pattern that begins in a clear text does not end in a tail behind it. */
  lemma StraddlesNot(n: string, more: string, l: string, k: nat)
    requires IsClear(n) && IsLicense(l) && IsTail(more) && k < |n| < k + 10
    ensures !At(n + more, l, k)
  {
    var s, d := n + more, |n| - k;
    LicenseChars(l);
    if more == "" {
      assert |s| < k + |l|;
    } else if d != 9 {
      assert s[|n|] == '-';
      NotAt(s, l, k, d);
    } else {
      EndsClear(n, k);
      TakenFromEnd(n, more, l, k);
    }
  }

  lemma EndsClear(n: string, k: nat)
    requires IsClear(n) && k + 9 == |n|
    ensures n[k..] != "-licensed"
  {
    assert ("-" + n)[|n| + 1 - 9..] == n[k..];
  }

  lemma TakenFromEnd(n: string, more: string, l: string, k: nat)
    requires IsLicense(l) && k + 9 == |n|
    ensures At(n + more, l, k) ==> n[k..] == "-licensed"
  {
    AtLeft(n, more, "-licensed", k);
    assert "-licensed" <= l;
    assert At(n + more, l, k) ==> At(n + more, "-licensed", k);
  }

  /** The tail stays a tail whatever is rewritten in it. */
  lemma TailStaysTail(more: string, l: string)
    requires IsTail(more) && IsLicense(l)
    ensures IsTail(Replace(more, l, "--"))
  {
    hide IsLicense;
    if more != "" {
      LicenseChars(l);
      var t := more[1..];
      assert !(l <= more);
      assert t[0] == '-';
      assert l <= t || Replace(t, l, "--") == t[..1] + Replace(t[1..], l, "--");
    }
  }

  /** How the name is introduced. */
  predicate IsSeparator(sep: string) {
    sep == "--" || IsLicense(sep)
  }

  /** A separator that is not the pattern, nor longer than it, lets the pattern pass. */
  lemma LicenseNotInSeparator(sep: string, m: string, l: string)
    requires IsLicense(l) && m != "" && m[0] != '-' && !("licensed-" <= m)
    requires sep == "--" || (IsLicense(sep) && |sep| < |l|)
    ensures NoneStarts(sep, m, l)
  {
    LicenseChars(l);
    if IsLicense(sep) {
      LicenseChars(sep);
    }
    hide IsLicense;
    forall k | 0 <= k < |sep| ensures !At(sep + m, l, k) {
      var s := sep + m;
      assert s[|sep|] == m[0];
      if sep[k] != '-' {
        NotAt(s, l, k, 0);
      } else if sep != "--" && k == 0 {
        NotAt(s, l, 0, |sep|);
      } else if k + 1 < |sep| {
        NotAt(s, l, k, 1);
      } else {
        assert s[k..] == "-" + m;
        HyphenBefore(m, l);
      }
    }
  }

  lemma HyphenBefore(m: string, l: string)
    requires IsLicense(l)
    ensures l <= "-" + m ==> "licensed-" <= m
  {
    assert "-licensed-" <= l && "-licensed-"[1..] == "licensed-";
    assert ("-" + m)[1..] == m;
  }

  /** Nor does a text with its marks and tail continue a hyphen to the pattern. */
  lemma ClearInContext(n: string, marks: string, more: string)
    requires IsClear(n) && IsTail(more) && (marks != "" ==> marks[0] in " (")
    ensures var m := n + marks + more; m[0] != '-' && !("licensed-" <= m)
  {
    var m, word := n + marks + more, "licensed-";
    assert "-" + "licensed" == "-licensed";
    if |n| >= 9 {
      assert m[..9] == n[..9];
    } else if |n| == 8 {
      assert m[..8] == n && word[..8] == "licensed";
    } else if m != n {
      assert m[|n|] == (marks + more)[0];
      assert word[|n|] !in "- (";
    }
  }

  lemma NoHyphenNoStart(u: string, v: string, p: string)
    requires p != "" && p[0] == '-' && '-' !in u
    ensures NoneStarts(u, v, p)
  {
    forall k | 0 <= k < |u| ensures !At(u + v, p, k) {
      NotAt(u + v, p, k, 0);
    }
  }

  const PROGRAM := "rustdesk"

  /** The file name up to its tail, after the separator has possibly been rewritten. */
  function Body(sep: string, n: string, marks: string, more: string): string {
    PROGRAM + (sep + (n + marks + more))
  }

  /** One rewriting pass touches only the separator it is for, and the tail. */
  lemma OnePass(sep: string, n: string, marks: string, more: string, l: string)
    requires IsText(n) && !Contains(n, LICENSED) && IsLicense(l) && IsTail(more)
    requires forall i :: 0 <= i < |marks| ==> IsMarkChar(marks[i])
    requires marks != "" ==> marks[0] in " ("
    requires sep == "--" || sep == l || (IsLicense(sep) && |sep| < |l|)
    ensures Replace(Body(sep, n, marks, more), l, "--")
            == Body(if sep == l then "--" else sep, n, marks, Replace(more, l, "--"))
    ensures IsTail(Replace(more, l, "--"))
  {
    LicenseChars(l);
    assert sep != "--" ==> IsLicense(sep);
    ClearInContext(n, marks, more);
    hide IsLicense, Contains, InAlphabet, Replace, IsClear;
    var m := n + marks + more;
    assert m != "";
    NoHyphenNoStart(PROGRAM, sep + m, l);
    ReplaceSkips(PROGRAM, sep + m, l, "--");
    if sep == l {
      ReplaceHere(l, m, "--");
    } else {
      LicenseNotInSeparator(sep, m, l);
      ReplaceSkips(sep, m, l, "--");
    }
    LicenseNotInBody(n, marks, more, l);
    ReplaceSkips(n + marks, more, l, "--");
    TailStaysTail(more, l);
  }

  lemma Unlicense(sep: string, n: string, marks: string, more: string) returns (more': string)
    requires IsText(n) && !Contains(n, LICENSED) && IsSeparator(sep) && IsTail(more)
    requires forall i :: 0 <= i < |marks| ==> IsMarkChar(marks[i])
    requires marks != "" ==> marks[0] in " ("
    ensures Unlicensed(Body(sep, n, marks, more)) == Body("--", n, marks, more') && IsTail(more')
    ensures more == "" ==> more' == ""
  {
    hide Replace, Body, InAlphabet, Contains, IsClear;
    var l3, l2 := LICENSED + "--", LICENSED + "-";
    OnePass(sep, n, marks, more, l3);
    var sep2, more2 := if sep == l3 then "--" else sep, Replace(more, l3, "--");
    OnePass(sep2, n, marks, more2, l2);
    var sep1, more1 := if sep2 == l2 then "--" else sep2, Replace(more2, l2, "--");
    OnePass(sep1, n, marks, more1, LICENSED);
    more' := Replace(more1, LICENSED, "--");
    NoText(l3);
    NoText(l2);
    NoText(LICENSED);
  }

  lemma NoText(p: string)
    requires p != ""
    ensures Replace("", p, "--") == ""
  {
  }

  // ---------- cutting at `--` ----------

  lemma NoCutInBody(n: string, marks: string, more: string)
    requires IsText(n) && !Contains(n, "--") && IsTail(more)
    requires forall i :: 0 <= i < |marks| ==> IsMarkChar(marks[i])
    ensures NoneStarts(n + marks, more, "--")
  {
    hide Contains, InAlphabet;
    var s := n + marks + more;
    forall k | 0 <= k < |n + marks| ensures !At(s, "--", k) {
      assert s == n + (marks + more);
      if k >= |n| {
        assert s[k] == marks[k - |n|];
        NotAt(s, "--", k, 0);
      } else if k == |n| - 1 {
        NotAt(s, "--", k, 0);
      } else if At(s, "--", k) {
        AtLeft(n, marks + more, "--", k);
        ContainsAt(n, "--", k);
      }
    }
  }

  lemma CutPieces(n: string, marks: string, more: string)
    requires IsText(n) && !Contains(n, "--") && IsTail(more)
    requires forall i :: 0 <= i < |marks| ==> IsMarkChar(marks[i])
    ensures var pieces := Split(Body("--", n, marks, more), "--");
            |pieces| >= 2 && pieces[0] == PROGRAM && pieces[1] == n + marks && (more == "" ==> |pieces| == 2)
  {
    hide Contains, InAlphabet, Split;
    var body := n + marks;
    NoHyphenNoStart(PROGRAM, "--" + (body + more), "--");
    SplitFirst(PROGRAM, "--", body + more);
    NoCutInBody(n, marks, more);
    SplitSkips(body, more, "--");
    SplitTailHead(more);
    assert body + "" == body;
  }

  lemma SplitTailHead(more: string)
    requires IsTail(more)
    ensures Split(more, "--")[0] == "" && (more == "" ==> |Split(more, "--")| == 1)
  {
  }

  // ---------- reading the pieces ----------

  lemma TrimIsIdentity(s: string)
    requires s != "" && !IsWhitespace(s[0]) && !IsWhitespace(s[|s| - 1])
    ensures Trim(s) == s && Trim(s + " ") == s
  {
    assert (s + " ")[..|s|] == s;
  }

  lemma AlphabetChars(c: char)
    requires Base64Url.Value(c).Some?
    ensures !IsWhitespace(c) && c !in ".=()"
  {
  }

  lemma ReverseReverse(s: string)
    ensures Reverse(Reverse(s)) == s
  {
    var r := Reverse(Reverse(s));
    assert |r| == |s|;
    assert forall i :: 0 <= i < |s| ==> r[i] == s[i];
  }

  lemma NameIsRead(libs: Libraries, c: CustomServer)
    requires Faithful(libs)
    ensures FromConfigString(libs, GenName(c)) == Some(c)
  {
    hide Base64Url.Decode, Base64Url.Encode, Reverse, JsonBytes;
    ReverseReverse(Base64Url.Encode(JsonBytes(c)));
    Base64Url.DecodeEncode(JsonBytes(c));
  }

  /** The program's own name is not a configuration: its first decoded byte is not the start of any JSON. */
  lemma ProgramIsNoConfig(libs: Libraries)
    requires Faithful(libs)
    ensures TryPiece(libs, PROGRAM).None?
  {
    hide Trim, Reverse, Base64Url.Decode, Contains, FromConfigString, Faithful, StartsLikeJson;
    TrimIsIdentity(PROGRAM);
    ProgramReversed();
    ProgramDecodes();
    GarbageIsNoConfig(libs, PROGRAM);
    if Contains(PROGRAM, "(") {
      ContainsChar(PROGRAM, "(", "("[0]);
    }
  }

  /** A short text that decodes to something unlike JSON is no configuration. */
  lemma GarbageIsNoConfig(libs: Libraries, s: string)
    requires Faithful(libs)
    requires var d := Base64Url.Decode(Reverse(s));
             d.Some? ==> !StartsLikeJson(d.value) && |d.value| < SIGNATURE_BYTES
    ensures FromConfigString(libs, s).None?
  {
    hide Reverse, Base64Url.Decode, JsonBytes, StartsLikeJson;
  }

  lemma ProgramReversed()
    ensures Reverse(PROGRAM) == "ksedtsur"
  {
    hide Reverse;
  }

  lemma ProgramDecodes()
    ensures var d := Base64Url.Decode("ksedtsur"); d.Some? && |d.value| == 6 && !StartsLikeJson(d.value)
  {
    var d := Base64Url.Values("ksedtsur").value;
    assert d[0] == 36 && d[1] == 44 && |d| == 8;
    assert |d[4..]| == 4 && |d[4..][4..]| == 0;
  }

  lemma MarkedNameIsNotRead(libs: Libraries, n: string, marks: string, i: nat)
    requires i < |marks| && marks[i] == '('
    ensures FromConfigString(libs, n + marks).None?
  {
    var s := n + marks;
    assert s[|n| + i] == '(';
    var r := Reverse(s);
    assert r[|s| - 1 - (|n| + i)] == '(';
    Base64Url.DecodeRejects(r, |s| - 1 - (|n| + i));
  }

  lemma NoParenthesisStart(u: string, v: string)
    requires '(' !in u
    ensures NoneStarts(u, v, "(")
  {
    forall k | 0 <= k < |u| ensures !At(u + v, "(", k) {
      NotAt(u + v, "(", k, 0);
    }
  }

  /** The piece that holds a readable text gives the configuration, with or without duplicate marks behind it. */
  lemma TextPieceIsRead(libs: Libraries, n: string, c: CustomServer, copies: seq<Copy>)
    requires IsText(n) && FromConfigString(libs, n) == Some(c) && AreNumbered(copies)
    ensures TryPiece(libs, n + Marks(copies)) == Some(c)
  {
    hide FromConfigString, Split, Trim, Contains;
    AlphabetChars(n[0]);
    AlphabetChars(n[|n| - 1]);
    TrimIsIdentity(n);
    if copies == [] {
      assert n + Marks(copies) == n;
    } else {
      MarkedPieceIsRead(libs, n, copies, c);
    }
  }

  lemma MarkedPieceIsRead(libs: Libraries, n: string, copies: seq<Copy>, c: CustomServer)
    requires copies != [] && IsText(n)
    requires FromConfigString(libs, n) == Some(c) && Trim(n) == n && Trim(n + " ") == n && !IsWhitespace(n[0])
    ensures TryPiece(libs, n + Marks(copies)) == Some(c)
  {
    hide FromConfigString, Split, Trim, Contains, Marks, IsWhitespace;
    var marks := Marks(copies);
    MarksEnd(copies);
    var v := MarksBegin(copies);
    assert !IsWhitespace(')') by { TrimmedParenthesis(); }
    TrimIsIdentity(n + marks);
    var i := if copies[0].spaced then 1 else 0;
    assert marks[i] == '(';
    MarkedNameIsNotRead(libs, n, marks, i);
    var u := if copies[0].spaced then n + " " else n;
    assert n + marks == u + ("(" + v);
    forall k | 0 <= k < |n| ensures n[k] != '(' { AlphabetChars(n[k]); }
    NoParenthesisStart(u, "(" + v);
    SplitFirst(u, "(", v);
    assert (n + marks)[|u|..] == "(" + v;
    ContainsAt(n + marks, "(", |u|);
  }

  lemma TrimmedParenthesis()
    ensures !IsWhitespace(')')
  {
  }

  lemma SecondPieceIsTried(libs: Libraries, pieces: seq<string>)
    requires |pieces| >= 2 && TryPiece(libs, pieces[0]).None? && TryPiece(libs, pieces[1]).Some?
    ensures TryPieces(libs, pieces) == TryPiece(libs, pieces[1])
  {
    assert pieces[1..][0] == pieces[1];
  }

  // ---------- the round trip ----------

  function Wrapped(sep: string, n: string, copies: seq<Copy>, tail: string, ext: string): string {
    PROGRAM + sep + n + Marks(copies) + (tail + ext)
  }

  function FileName(sep: string, c: CustomServer, copies: seq<Copy>, tail: string, ext: string): string {
    Wrapped(sep, GenName(c), copies, tail, ext)
  }

  /** The pieces that the parser makes of a wrapped text that is clean and clear. */
  lemma WrappedPieces(sep: string, n: string, copies: seq<Copy>, tail: string, ext: string)
    requires IsText(n) && IsClean(n)
    requires IsSeparator(sep) && AreNumbered(copies) && IsTail(tail) && IsExtension(ext)
    requires !Contains(ToLower(tail), HOST) // the guard that sends a name to the other form
    ensures !Contains(ToLower(Stem(Wrapped(sep, n, copies, tail, ext))), HOST)
    ensures var pieces := Split(Unlicensed(Stem(Wrapped(sep, n, copies, tail, ext))), "--");
            && |pieces| >= 2 && pieces[0] == PROGRAM && pieces[1] == n + Marks(copies)
            && (tail == "" ==> |pieces| == 2)
  {
    hide Contains, Stem, Unlicensed, IsExtension, ToLower, Split, Marks, AreNumbered, IsSeparator, Body, InAlphabet, IsClear;
    var marks := Marks(copies);
    var head := PROGRAM + sep + n + marks;
    MarksShape(copies);
    HeadChars(sep, n, marks);
    var more := StripKeepsHead(head, tail, ext);
    NoHost(head, more, tail);
    HeadAndTail(sep, n, marks, more);
    var more' := Unlicense(sep, n, marks, more);
    CutPieces(n, marks, more');
  }

  /** A text that is read by itself is read from every file name it can be wrapped in. */
  lemma WrappedIsRead(libs: Libraries, lower: Lowering, n: string, c: CustomServer,
                      sep: string, copies: seq<Copy>, tail: string, ext: string)
    requires Faithful(libs) && IsLowering(lower) && IsText(n) && IsClean(n) && FromConfigString(libs, n) == Some(c)
    requires IsSeparator(sep) && AreNumbered(copies) && IsTail(tail) && IsExtension(ext)
    requires !Contains(ToLower(tail), HOST)
    ensures Parse(libs, lower, Wrapped(sep, n, copies, tail, ext)) == Parsed(c)
  {
    hide Faithful, Contains, Stem, Unlicensed, TryPieces, TryPiece, IsExtension, ToLower, Split, IsText, IsClean;
    hide IsLowering, Parse, Marks, AreNumbered, IsSeparator, FromConfigString, Wrapped;
    var name := Wrapped(sep, n, copies, tail, ext);
    WrappedPieces(sep, n, copies, tail, ext);
    ParseByPieces(libs, lower, name);
    ProgramIsNoConfig(libs);
    TextPieceIsRead(libs, n, c, copies);
    SecondPieceIsTried(libs, Split(Unlicensed(Stem(name)), "--"));
  }

  /**
   Every configuration whose generated name is clean is read back from every file name it can be
   wrapped in: any of the four separators, any duplicate marks, a `--` tail, `.exe` or `.exe.exe`.
   */
  lemma CleanNameReadsBack(libs: Libraries, lower: Lowering, c: CustomServer,
                           sep: string, copies: seq<Copy>, tail: string, ext: string)
    requires Faithful(libs) && IsLowering(lower) && IsClean(GenName(c))
    requires IsSeparator(sep) && AreNumbered(copies) && IsTail(tail) && IsExtension(ext)
    requires !Contains(ToLower(tail), HOST)
    ensures Parse(libs, lower, FileName(sep, c, copies, tail, ext)) == Parsed(c)
  {
    hide Faithful, GenName, Contains, IsExtension, ToLower, IsClean, IsNameShaped, IsText;
    hide IsLowering, Parse, AreNumbered, IsSeparator, FromConfigString, Wrapped;
    NameShape(c);
    ShapedIsText(GenName(c));
    NameIsRead(libs, c);
    WrappedIsRead(libs, lower, GenName(c), c, sep, copies, tail, ext);
  }

  lemma HeadAndTail(sep: string, n: string, marks: string, more: string)
    ensures PROGRAM + sep + n + marks + more == Body(sep, n, marks, more)
  {
    Assoc(n, marks, more);
    Assoc(sep, n + marks, more);
    Assoc(PROGRAM, sep, n + marks + more);
    Assoc(PROGRAM + sep, n + marks, more);
    Assoc(PROGRAM + sep, n, marks);
  }

  lemma HeadChars(sep: string, n: string, marks: string)
    requires IsSeparator(sep) && InAlphabet(n)
    requires forall i :: 0 <= i < |marks| ==> IsMarkChar(marks[i])
    ensures var head := PROGRAM + sep + n + marks; '.' !in head && '=' !in head
  {
    assert '.' !in sep && '=' !in sep && '.' !in PROGRAM && '=' !in PROGRAM;
    assert '.' !in n && '=' !in n by {
      forall k | 0 <= k < |n| ensures n[k] != '.' && n[k] != '=' { AlphabetChars(n[k]); }
    }
  }

  /** For every configuration with ASCII fields. */
  lemma AsciiConfigReadsBack(libs: Libraries, lower: Lowering, c: CustomServer,
                           sep: string, copies: seq<Copy>, tail: string, ext: string)
    requires Faithful(libs) && IsLowering(lower) && IsAsciiConfig(c)
    requires IsSeparator(sep) && AreNumbered(copies) && IsTail(tail) && IsExtension(ext)
    requires !Contains(ToLower(tail), HOST)
    ensures Parse(libs, lower, FileName(sep, c, copies, tail, ext)) == Parsed(c)
  {
    AsciiNamesAreClean(c);
    CleanNameReadsBack(libs, lower, c, sep, copies, tail, ext);
  }
}
