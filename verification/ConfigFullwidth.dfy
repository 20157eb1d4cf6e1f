/**
 A configuration beyond ASCII that is not read back: its generated name holds `--`, and neither half decodes.
 */
module ConfigFullwidth {
  import opened Prelude
  import opened Text
  import opened ConfigName
  import opened ConfigLowering
  import opened ConfigRoundTrip
  import opened ConfigForms
  import opened ConfigTried
  import opened Lists
  import Utf8
  import Base64Url

  const FULLWIDTH := CustomServer("ac\U{FF01}", "", "", "")

  // ---------- its bytes ----------

  lemma Regroup(p: string, q: string, a: string, t: string, w: string, x: string)
    ensures p + (q + (a + t) + w + x) == (p + q + a) + (t + (w + x))
  {
    Assoc(q, a, t);
    Assoc(q + a, t, w + x);
    Assoc(q + (a + t), w, x);
    Assoc(p, q + a, t + (w + x));
    Assoc(p, q, a);
  }

  lemma FullwidthJson(head: string) returns (rest: string)
    requires head == "{" + "\"key\":\"" + "a"
    ensures Json(FULLWIDTH) == head + ("c\U{FF01}" + rest)
    ensures rest == "\"" + ("," + (Member("host", "") + "," + (Member("api", "") + "," + (Member("relay", "") + "}"))))
  {
    var c := FULLWIDTH;
    var x := "," + (Member("host", c.host) + "," + (Member("api", c.api) + "," + (Member("relay", c.relay) + "}")));
    FullwidthKey();
    KeyFirst(c, x);
    hide Member, Json;
    Regroup("{", "\"key\":\"", "a", "c\U{FF01}", "\"", x);
    rest := "\"" + x;
  }

  lemma KeyFirst(c: CustomServer, x: string)
    requires x == "," + (Member("host", c.host) + "," + (Member("api", c.api) + "," + (Member("relay", c.relay) + "}")))
    ensures Json(c) == "{" + (Member("key", c.key) + x)
  {
    hide Member;
    var y := Member("host", c.host) + "," + (Member("api", c.api) + "," + (Member("relay", c.relay) + "}"));
    Assoc(Member("key", c.key), ",", y);
  }

  lemma FullwidthKey()
    ensures Member("key", FULLWIDTH.key) == "\"key\":\"" + ("a" + "c\U{FF01}") + "\""
  {
    assert Escape("ac\U{FF01}") == "a" + "c\U{FF01}";
    hide Escape;
    assert "\"" + "key" + "\":\"" == "\"key\":\"";
  }

  lemma FullwidthBytes()
    ensures Utf8.Encode("c\U{FF01}") == [0x63, 0xEF, 0xBC, 0x81]
  {
    assert '\U{FF01}' as int == 0xFF01;
    assert Utf8.EncodeChar('\U{FF01}') == [0xEF, 0xBC, 0x81];
  }


  const SPELLED: seq<Byte> := [0x63, 0xEF, 0xBC, 0x81, 0x22, 0x2C]

  lemma {:induction false} EncodedLength(s: string)
    requires Utf8.IsAscii(s)
    ensures |Utf8.Encode(s)| == |s| && forall i :: 0 <= i < |s| ==> Utf8.Encode(s)[i] < 128
  {
    Utf8.EncodeAscii(s);
  }

  /** Forty-five bytes, all ASCII but the three of the full-width mark. */
  lemma FullwidthJsonBytes() returns (a: seq<Byte>, z: seq<Byte>)
    ensures JsonBytes(FULLWIDTH) == a + (SPELLED + z) && |a| == 9 && |z| == 30
    ensures forall i :: 0 <= i < |a| ==> a[i] < 128
    ensures forall i :: 0 <= i < |z| ==> z[i] < 128
  {
    hide Json, Utf8.EncodeChar;
    var head := "{" + "\"key\":\"" + "a";
    var rest := FullwidthJson(head);
    FullwidthRest(rest);
    assert |head| == 9 && Utf8.IsAscii(head);
    EncodedLength(head);
    EncodedLength(rest[2..]);
    FullwidthBytes();
    RestBytes(rest);
    hide Utf8.Encode;
    Utf8.EncodeConcat(head, "c\U{FF01}" + rest);
    Utf8.EncodeConcat("c\U{FF01}", rest);
    a, z := Utf8.Encode(head), Utf8.Encode(rest[2..]);
    assert [0x63, 0xEF, 0xBC, 0x81] + ([0x22, 0x2C] + z) == SPELLED + z;
  }

  lemma FullwidthRest(rest: string)
    requires rest == "\"" + ("," + (Member("host", "") + "," + (Member("api", "") + "," + (Member("relay", "") + "}"))))
    ensures |rest| == 32 && Utf8.IsAscii(rest) && rest[0] == '\"' && rest[1] == ','
  {
    assert Escape("") == "";
    hide Escape;
    assert |Member("host", "")| == 9 && Utf8.IsAscii(Member("host", ""));
    assert |Member("api", "")| == 8 && Utf8.IsAscii(Member("api", ""));
    assert |Member("relay", "")| == 10 && Utf8.IsAscii(Member("relay", ""));
  }

  lemma RestBytes(rest: string)
    requires |rest| >= 2 && rest[0] == '\"' && rest[1] == ','
    ensures Utf8.Encode(rest) == [0x22, 0x2C] + Utf8.Encode(rest[2..])
  {
    assert Utf8.EncodeChar('\"') == [0x22] && Utf8.EncodeChar(',') == [0x2C];
    assert rest[1..][1..] == rest[2..];
  }

  // ---------- its sextets ----------

  lemma {:induction false} SextetsConcat(x: seq<Byte>, y: seq<Byte>)
    requires |x| % 3 == 0
    ensures Base64Url.Sextets(x + y) == Base64Url.Sextets(x) + Base64Url.Sextets(y)
    ensures |Base64Url.Sextets(x)| == |x| / 3 * 4
  {
    hide Base64Url.High, Base64Url.Upper, Base64Url.Lower, Base64Url.Low;
    if x == [] {
      assert x + y == y;
    } else {
      SextetsConcat(x[3..], y);
      assert (x + y)[3..] == x[3..] + y;
      Assoc([Base64Url.High(x[0]), Base64Url.Upper(x[0], x[1]), Base64Url.Lower(x[1], x[2]), Base64Url.Low(x[2])],
                  Base64Url.Sextets(x[3..]), Base64Url.Sextets(y));
    }
  }

  lemma SpelledSextets()
    ensures Base64Url.Sextets(SPELLED) == [24, 62, 62, 60, 32, 18, 8, 44]
  {
    assert SPELLED[3..] == [0x81, 0x22, 0x2C];
    assert Base64Url.Sextets([0x81, 0x22, 0x2C]) == [32, 18, 8, 44];
  }

  /** The sextet 62 stands at 13 and 14, and elsewhere only at positions 3 modulo 4. */
  predicate HyphensAt(d: seq<Base64Url.Sextet>) {
    && |d| == 60 && d[13] == 62 && d[14] == 62 && d[15] == 60
    && forall i :: 0 <= i < 60 && d[i] == 62 ==> i == 13 || i == 14 || i % 4 == 3
  }

  /** As in ASCII text. */
  predicate HyphensThird(d: seq<Base64Url.Sextet>) {
    forall i :: 0 <= i < |d| && d[i] == 62 ==> i % 4 == 3
  }

  lemma AsciiHyphens(b: seq<Byte>)
    requires forall i :: 0 <= i < |b| ==> b[i] < 128
    ensures HyphensThird(Base64Url.Sextets(b))
  {
    var d := Base64Url.Sextets(b);
    hide Base64Url.Sextets;
    forall i | 0 <= i < |d| && d[i] == 62 ensures i % 4 == 3 {
      Base64Url.HyphenPositions(b, i);
    }
  }

  lemma Assembled(p: seq<Base64Url.Sextet>, mid: seq<Base64Url.Sextet>, q: seq<Base64Url.Sextet>)
    requires |p| == 12 && mid == [24, 62, 62, 60, 32, 18, 8, 44] && |q| == 40 && HyphensThird(p) && HyphensThird(q)
    ensures HyphensAt(p + (mid + q))
  {
    var d := p + (mid + q);
    forall i | 0 <= i < 60 && d[i] == 62 ensures i == 13 || i == 14 || i % 4 == 3 {
      if i < 12 {
        assert d[i] == p[i];
      } else if i < 20 {
        assert d[i] == mid[i - 12];
      } else {
        assert d[i] == q[i - 20];
        FourBack(i);
      }
    }
  }

  lemma FourBack(i: nat)
    requires i >= 20 && (i - 20) % 4 == 3
    ensures i % 4 == 3
  {
  }

  lemma FullwidthSextets()
    ensures HyphensAt(Base64Url.Sextets(JsonBytes(FULLWIDTH)))
  {
    hide JsonBytes, Base64Url.Sextets, HyphensAt, HyphensThird;
    var a, z := FullwidthJsonBytes();
    SextetsConcat(a, SPELLED + z);
    SextetsConcat(SPELLED, z);
    SextetsConcat(z, []);
    SpelledSextets();
    AsciiHyphens(a);
    AsciiHyphens(z);
    Assembled(Base64Url.Sextets(a), Base64Url.Sextets(SPELLED), Base64Url.Sextets(z));
  }

  // ---------- its name ----------

  /** The name reads the sextets backwards. */
  predicate Spells(n: string, d: seq<Base64Url.Sextet>) {
    |n| == |d| && forall i :: 0 <= i < |n| ==> n[i] == Base64Url.Digit(d[|d| - 1 - i])
  }

  lemma NameSpells(c: CustomServer)
    ensures Spells(GenName(c), Base64Url.Sextets(JsonBytes(c)))
  {
    hide JsonBytes, Base64Url.Sextets, Base64Url.Digit;
  }

  lemma HyphenBack(n: string, d: seq<Base64Url.Sextet>, i: nat)
    requires Spells(n, d) && i < |n|
    ensures n[i] == '-' <==> d[|d| - 1 - i] == 62
  {
    hide Base64Url.Digit;
  }

  /** Two hyphens meet in one place only, and `-licensed-` does not occur. */
  lemma MeetOnce(n: string, d: seq<Base64Url.Sextet>, i: nat)
    requires Spells(n, d) && HyphensAt(d)
    ensures At(n, "--", i) <==> i == 45
    ensures !At(n, LICENSED, i)
  {
    hide Base64Url.Digit;
    HyphenBack(n, d, 45);
    HyphenBack(n, d, 46);
    HyphenPair(n, 45);
    if At(n, "--", i) {
      AtChar(n, "--", i, 0);
      AtChar(n, "--", i, 1);
      HyphenBack(n, d, i);
      HyphenBack(n, d, i + 1);
    }
    NotLicensed(n, d, i);
  }

  lemma NotLicensed(n: string, d: seq<Base64Url.Sextet>, i: nat)
    requires Spells(n, d) && HyphensAt(d)
    ensures !At(n, LICENSED, i)
  {
    if i + 10 <= |n| {
      HyphenBack(n, d, i);
      HyphenBack(n, d, i + 9);
      if n[i] != '-' {
        NotAt(n, LICENSED, i, 0);
      } else if n[i + 9] != '-' {
        NotAt(n, LICENSED, i, 9);
      } else {
        assert n[i + 8] == Base64Url.Digit(d[51 - i]);
        assert Base64Url.Digit(60) == '8';
        NotAt(n, LICENSED, i, 8);
      }
    }
  }

  /** The name is cut in two. */
  lemma TwoPieces(n: string, d: seq<Base64Url.Sextet>)
    requires Spells(n, d) && HyphensAt(d) && IsNameShaped(n)
    ensures Split(Unlicensed(PROGRAM + "--" + n), "--") == [PROGRAM, n[..45], n[47..]]
  {
    hide Contains, Unlicensed, Split, InAlphabet, Spells, HyphensAt;
    assert |n| == 60 by { SpellsLength(n, d); }
    var head, last := n[..45], n[47..];
    if Contains(n, LICENSED) {
      var k := WhereContained(n, LICENSED);
      MeetOnce(n, d, k);
    }
    PlainBodyUnlicensed(n);
    MeetOnce(n, d, 45);
    AtChar(n, "--", 45, 0);
    AtChar(n, "--", 45, 1);
    assert n == head + ("--" + last);
    NoHyphenNoStart(PROGRAM, "--" + n, "--");
    SplitFirst(PROGRAM, "--", n);
    Assoc(PROGRAM, "--", n);
    forall k | 0 <= k < |head| ensures !At(head + ("--" + last), "--", k) {
      MeetOnce(n, d, k);
    }
    SplitFirst(head, "--", last);
    if Contains(last, "--") {
      var k := WhereContained(last, "--");
      AtWithin(n, last, "--", 47, k);
      MeetOnce(n, d, 47 + k);
    }
    UncutText(last, "--", "");
  }

  lemma SpellsLength(n: string, d: seq<Base64Url.Sextet>)
    requires Spells(n, d) && HyphensAt(d)
    ensures |n| == 60
  {
  }

  lemma PlainBodyUnlicensed(n: string)
    requires IsNameShaped(n) && !Contains(n, LICENSED)
    ensures Unlicensed(PROGRAM + "--" + n) == PROGRAM + "--" + n
  {
    hide Contains, InAlphabet, Replace, IsClear;
    var s := PROGRAM + "--" + n;
    assert Body("--", n, "", "") == s;
    ShapedIsText(n);
    NoText(LICENSED + "--");
    NoText(LICENSED + "-");
    NoText(LICENSED);
    OnePass("--", n, "", "", LICENSED + "--");
    OnePass("--", n, "", "", LICENSED + "-");
    OnePass("--", n, "", "", LICENSED);
  }

  /** Text one longer than a multiple of four does not decode. */
  lemma WrongLengthIsNoConfig(libs: Libraries, s: string)
    requires |s| % 4 == 1 && InAlphabet(s)
    ensures TryPiece(libs, s).None?
  {
    hide Trim, Contains;
    AlphabetChars(s[0]);
    AlphabetChars(s[|s| - 1]);
    TrimIsIdentity(s);
    if Contains(s, "(") {
      ContainsChar(s, "(", "("[0]);
      var i :| 0 <= i < |s| && s[i] == '(';
      AlphabetChars(s[i]);
    }
    var r := Reverse(s);
    if Base64Url.Values(r).Some? {
      Base64Url.LengthOneRejected(Base64Url.Values(r).value);
    }
  }

  lemma {:induction false} NoPieceRead(libs: Libraries, pieces: seq<string>)
    requires forall i :: 0 <= i < |pieces| ==> TryPiece(libs, pieces[i]).None?
    ensures TryPieces(libs, pieces).None?
  {
    hide TryPiece;
    if pieces != [] {
      NoPieceRead(libs, pieces[1..]);
    }
  }

  lemma StemOfPlainName(n: string)
    requires IsNameShaped(n)
    ensures var s := PROGRAM + "--" + n; Stem(s + ".exe") == s && !Contains(ToLower(s), HOST)
  {
    hide Stem, Contains, ToLower;
    forall k | 0 <= k < |n| ensures n[k] !in ".=(" { AlphabetChars(n[k]); }
    StripPrinted(PROGRAM + "--" + n);
    NoHostIn(PROGRAM + "--" + n);
  }

  lemma PlainFileName(c: CustomServer)
    ensures FileName("--", c, [], "", ".exe") == PROGRAM + "--" + GenName(c) + ".exe"
  {
    hide GenName;
    var s := PROGRAM + "--" + GenName(c);
    assert Marks([]) == "" && s + "" == s && "" + ".exe" == ".exe";
  }

  /** A name so spelt is not clean, and its file name is rejected: both pieces have a length that does not decode. */
  lemma SpeltIsRejected(libs: Libraries, lower: Lowering, n: string, d: seq<Base64Url.Sextet>)
    requires Faithful(libs) && IsLowering(lower)
    requires Spells(n, d) && HyphensAt(d) && IsNameShaped(n)
    ensures !IsClean(n) && Parse(libs, lower, PROGRAM + "--" + n + ".exe") == Rejected
  {
    hide Parse, Stem, Faithful, IsLowering, TryPiece, Unlicensed, Split, ToLower, Contains, Spells, HyphensAt;
    SpellsLength(n, d);
    MeetOnce(n, d, 45);
    ContainsAt(n, "--", 45);
    TwoPieces(n, d);
    ProgramIsNoConfig(libs);
    WrongLengthIsNoConfig(libs, n[..45]);
    WrongLengthIsNoConfig(libs, n[47..]);
    NoPieceRead(libs, [PROGRAM, n[..45], n[47..]]);
    StemOfPlainName(n);
    ParseByPieces(libs, lower, PROGRAM + "--" + n + ".exe");
  }

  /** The configuration with a full-width mark in its key is printed under a name that is rejected. */
  lemma FullwidthIsRejected(libs: Libraries, lower: Lowering)
    requires Faithful(libs) && IsLowering(lower)
    ensures !IsClean(GenName(FULLWIDTH))
    ensures Parse(libs, lower, FileName("--", FULLWIDTH, [], "", ".exe")) == Rejected
  {
    hide GenName, JsonBytes, Base64Url.Sextets, Parse, FileName, Spells, HyphensAt, IsClean, Faithful, IsLowering;
    FullwidthSextets();
    NameSpells(FULLWIDTH);
    NameShape(FULLWIDTH);
    PlainFileName(FULLWIDTH);
    SpeltIsRejected(libs, lower, GenName(FULLWIDTH), Base64Url.Sextets(JsonBytes(FULLWIDTH)));
  }
}
